/** Context isolation: the machine as memory, process table and processor, with the history of what
    each process was doing when it last lost the processor. */
module Context {
  import opened Bytes
  import opened HeapList
  import opened HeapBytes
  import opened HeapModel
  import opened Frames
  import opened Sched
  import opened Pcbs
  import opened Processes

  /** heap.mem is all of RAM, process table and statics included; heap.blocks and sys are what it
      represents. saved[pid] is the processor state in which the process was last preempted or,
      before its first turn, the one it is to start in. Nothing in the kernel reads it. */
  datatype Machine = Machine(at: Statics, heap: HeapState, sys: Sys, cpu: Cpu, saved: map<uint32, Cpu>)

  datatype Action =
    | Execute(cpu: Cpu, mem: Mem)
    | Interrupt(scratch: seq<byte>)
    | NewProcess(entry: uint32, name: seq<byte>, priority: uint32)
    | Control(e: Event)

  /** irq0 up to the call of scheduler_tick: the frame is pushed and the handlers called by irq0
      leave arbitrary bytes below it. */
  function Interrupted(m: Mem, c: Cpu, scratch: seq<byte>): (r: Mem)
    ensures |r| == |m|
  {
    PutBytes(PushAll(m, c.esp, SavedWords(c)), c.esp - FRAME_BYTES - |scratch|, scratch)
  }

  /** What the code running as the current process may do. It may write anything but heap headers,
      PCBs, the statics of heap, process table and scheduler, kernel code with its descriptor tables,
      and other processes' stacks; when interrupted its own stack must have room for the frame and
      for the handlers. */
  ghost predicate Allowed(mc: Machine, a: Action) {
    match a
    case Execute(cpu, mem) =>
      && |mem| == |mc.heap.mem|
      && (forall x :: InHeader(mc.heap.blocks, x) ==> Byte(mem, x) == Byte(mc.heap.mem, x))
      && SameOnTable(mc.at, mc.sys.ring, mc.heap.mem, mem)
      && SameOn(mc.heap.mem, mem, mc.at.code, mc.at.codeEnd)
      && (forall i :: 1 <= i < |mc.sys.ring| ==>
            SameOn(mc.heap.mem, mem, mc.sys.ring[i].stack, mc.sys.ring[i].stack + STACK_SIZE))
    case Interrupt(scratch) =>
      && mc.sys.ring != []
      && mc.sys.ring[0].stack <= mc.cpu.esp - FRAME_BYTES - |scratch|
      && mc.cpu.esp <= mc.sys.ring[0].stack + STACK_SIZE
    case NewProcess(entry, name, priority) => Good(mc.heap) && mc.sys.nextPid + 1 < 0x1_0000_0000
    case Control(e) => (e.Exit? || e.Block? || e.Unblock? || e.BlockOthers?) && Enabled(mc.sys, e)
  }

  ghost function Step(mc: Machine, a: Action): Machine
    requires Allowed(mc, a)
  {
    match a
    case Execute(cpu, mem) => mc.(cpu := cpu, heap := HeapState(mem, mc.heap.blocks))
    case Interrupt(scratch) =>
      var sp := Wrap32(mc.cpu.esp - FRAME_BYTES);
      var m := TickBytes(mc.at, Interrupted(mc.heap.mem, mc.cpu, scratch), mc.sys, sp);
      var (sys, esp) := Tick(mc.sys, sp);
      Machine(mc.at, HeapState(m, mc.heap.blocks), sys, Restore(m, esp),
              if Switches(mc.sys) then mc.saved[mc.sys.ring[0].pid := mc.cpu] else mc.saved)
    case NewProcess(entry, name, priority) =>
      var (heap, sys, addr) := CreateProcess(mc.at, mc.heap, mc.sys, entry, name, priority);
      if addr == 0 then mc.(heap := heap)
      else
        var p := sys.ring[|sys.ring| - 1];
        mc.(heap := heap, sys := sys, saved := mc.saved[p.pid := InitialCpu(entry, Wrap32(p.stack + STACK_SIZE))])
    case Control(e) => Controlled(mc, e)
  }

  /** One of the calls that change states: its stores, and what they mean. */
  function Controlled(mc: Machine, e: Event): Machine
    requires Enabled(mc.sys, e)
  {
    mc.(heap := HeapState(ControlBytes(mc.at, mc.heap.mem, mc.sys, e), mc.heap.blocks), sys := Apply(mc.sys, e))
  }

  // ---------- The invariant ----------

  ghost predicate DistinctPids(s: Sys) {
    && (forall i, j :: 0 <= i < |s.ring| && 0 <= j < |s.ring| && i != j ==> s.ring[i].pid != s.ring[j].pid)
    && (forall i :: 0 <= i < |s.ring| ==> s.ring[i].pid < s.nextPid)
  }

  /** The frame at p.esp lies in p's stack and holds c. */
  ghost predicate Intact(m: Mem, p: Pcb, c: Cpu) {
    && p.stack <= p.esp && p.esp + FRAME_BYTES <= p.stack + STACK_SIZE
    && Restore(m, p.esp) == c
  }

  ghost predicate Parked(mc: Machine, p: Pcb) {
    p.pid in mc.saved && Intact(mc.heap.mem, p, mc.saved[p.pid])
  }

  ghost predicate Base(mc: Machine) {
    Consistent(mc.at, mc.heap, mc.sys) && DistinctPids(mc.sys)
  }

  /** Every process but the current one is parked: an intact frame inside its own stack holds exactly
      the state it is to resume in. */
  ghost predicate Inv(mc: Machine) {
    && Base(mc)
    && mc.sys.running && mc.sys.ring != []
    && forall i :: 1 <= i < |mc.sys.ring| ==> Parked(mc, mc.sys.ring[i])
  }

  /** The same before scheduler_start, when every process is parked. */
  ghost predicate PreStart(mc: Machine) {
    && Base(mc)
    && !mc.sys.running
    && forall i :: 0 <= i < |mc.sys.ring| ==> Parked(mc, mc.sys.ring[i])
  }

  lemma IntactSame(m: Mem, m': Mem, p: Pcb, c: Cpu)
    requires Intact(m, p, c) && SameOn(m, m', p.stack, p.stack + STACK_SIZE)
    ensures Intact(m', p, c)
  {
    hide Restore;
    RestoreSame(m, m', p.esp);
  }

  lemma ParkedKept(mc: Machine, mc': Machine, p: Pcb)
    requires Parked(mc, p) && SameOn(mc.heap.mem, mc'.heap.mem, p.stack, p.stack + STACK_SIZE)
    requires p.pid in mc'.saved && mc'.saved[p.pid] == mc.saved[p.pid]
    ensures Parked(mc', p)
  {
    IntactSame(mc.heap.mem, mc'.heap.mem, p, mc.saved[p.pid]);
  }

  // ---------- Execution ----------

  lemma ExecuteInv(mc: Machine, cpu: Cpu, mem: Mem)
    requires Inv(mc) && Allowed(mc, Execute(cpu, mem))
    ensures Inv(Step(mc, Execute(cpu, mem)))
  {
    hide Restore, Good, OwnsBetween, Stored;
    SameHeadersGood(mc.heap, mem) by { GoodTiles(mc.heap); }
    StoredSame(mc.at, mc.heap.mem, mem, mc.sys);
    var mc' := Step(mc, Execute(cpu, mem));
    forall i | 1 <= i < |mc.sys.ring| ensures Parked(mc', mc.sys.ring[i]) {
      ParkedKept(mc, mc', mc.sys.ring[i]);
    }
  }

  // ---------- The interrupt ----------

  /** The frame irq0 builds holds the interrupted state, and nothing outside the current process's
      stack is written. */
  lemma InterruptedFrame(m: Mem, c: Cpu, scratch: seq<byte>, stack: int)
    requires 0 <= stack <= c.esp - FRAME_BYTES - |scratch| && c.esp <= stack + STACK_SIZE && c.esp <= |m|
    ensures Restore(Interrupted(m, c, scratch), c.esp - FRAME_BYTES) == c
    ensures SameOutside(m, Interrupted(m, c, scratch), stack, stack + STACK_SIZE)
  {
    hide Restore, PushAll, PutBytes;
    var m1 := PushAll(m, c.esp, SavedWords(c));
    var m2 := Interrupted(m, c, scratch);
    PushAllOutside(m, c.esp, SavedWords(c));
    PutBytesOutside(m1, c.esp - FRAME_BYTES - |scratch|, scratch);
    RestoreSaved(m, c);
    RestoreSame(m1, m2, c.esp - FRAME_BYTES);
  }

  /** Heap, table, frame and other stacks once the frame has been pushed. */
  lemma PushedMemory(mc: Machine, scratch: seq<byte>)
    requires Inv(mc) && Allowed(mc, Interrupt(scratch))
    ensures var m := Interrupted(mc.heap.mem, mc.cpu, scratch);
      && Consistent(mc.at, HeapState(m, mc.heap.blocks), mc.sys)
      && Restore(m, mc.cpu.esp - FRAME_BYTES) == mc.cpu
      && forall i :: 1 <= i < |mc.sys.ring| ==>
           SameOn(mc.heap.mem, m, mc.sys.ring[i].stack, mc.sys.ring[i].stack + STACK_SIZE)
  {
    hide Restore, Good, OwnsBetween, Interrupted, Parked, Stored, InHeader, InTable;
    var h, ring := mc.heap, mc.sys.ring;
    var m, p := Interrupted(h.mem, mc.cpu, scratch), ring[0];
    StackOffTable(mc.at, h, ring, 0);
    InterruptedFrame(h.mem, mc.cpu, scratch, p.stack);
    StoredSame(mc.at, h.mem, m, mc.sys);
    BlockInside(h, p.stack, STACK_SIZE);
    SameHeadersGood(h, m);
    forall i | 1 <= i < |ring| ensures SameOn(h.mem, m, ring[i].stack, ring[i].stack + STACK_SIZE) {
      StacksClear(h, ring, 0, i);
    }
  }

  /** The same after scheduler_tick, and what the table has become. */
  lemma InterruptMemory(mc: Machine, scratch: seq<byte>)
    requires Inv(mc) && Allowed(mc, Interrupt(scratch))
    ensures var sp := mc.cpu.esp - FRAME_BYTES;
      var m := TickBytes(mc.at, Interrupted(mc.heap.mem, mc.cpu, scratch), mc.sys, sp);
      && Good(HeapState(m, mc.heap.blocks)) && Stored(mc.at, m, Tick(mc.sys, sp).0)
      && Restore(m, sp) == mc.cpu
      && forall i :: 1 <= i < |mc.sys.ring| ==>
           SameOn(mc.heap.mem, m, mc.sys.ring[i].stack, mc.sys.ring[i].stack + STACK_SIZE)
  {
    hide Restore, Good, OwnsBetween, Interrupted, Parked, Stored, TickBytes, Tick, InTable;
    PushedMemory(mc, scratch);
    var sp, ring := mc.cpu.esp - FRAME_BYTES, mc.sys.ring;
    var m1 := Interrupted(mc.heap.mem, mc.cpu, scratch);
    var h1 := HeapState(m1, mc.heap.blocks);
    var m := TickBytes(mc.at, m1, mc.sys, sp);
    TickBytesStored(mc.at, m1, mc.sys, sp);
    TableWrite(mc.at, h1, m, ring);
    RestoreSame(m1, m, sp);
  }

  /** When the scheduler keeps the current process, irq0 returns to it exactly where it was. When it
      switches, the processor is loaded with exactly what the next process was parked with. */
  lemma InterruptCpu(mc: Machine, scratch: seq<byte>)
    requires Inv(mc) && Allowed(mc, Interrupt(scratch))
    ensures var mc' := Step(mc, Interrupt(scratch));
      && mc'.sys.ring != []
      && (!Switches(mc.sys) ==> mc'.cpu == mc.cpu && mc'.sys.ring[0].pid == mc.sys.ring[0].pid)
      && (Switches(mc.sys) ==> mc'.sys.ring[0].pid in mc.saved && mc'.cpu == mc.saved[mc'.sys.ring[0].pid]
                               && mc'.sys.ring[0].pid != mc.sys.ring[0].pid)
  {
    hide Restore, Good, Owns, Interrupted, Tick, TickBytes, Stored, OwnBlocks, OwnsBetween, Pick;
    InterruptMemory(mc, scratch);
    var esp := mc.cpu.esp - FRAME_BYTES;
    var m := TickBytes(mc.at, Interrupted(mc.heap.mem, mc.cpu, scratch), mc.sys, esp);
    if Switches(mc.sys) {
      TickSwitch(mc.sys, esp, 0);
      var p := mc.sys.ring[Pick(mc.sys.ring)];
      assert Parked(mc, p);
      IntactSame(mc.heap.mem, m, p, mc.saved[p.pid]);
    } else {
      TickStay(mc.sys, esp);
    }
  }

  predicate SameIdentity(p: Pcb, q: Pcb) {
    p.addr == q.addr && p.stack == q.stack && p.pid == q.pid
  }

  /** ring' is ring turned by k, as far as identities go. */
  ghost predicate Turned(ring: seq<Pcb>, ring': seq<Pcb>, k: nat) {
    && k < |ring| && |ring'| == |ring|
    && forall x :: 0 <= x < |ring| ==> SameIdentity(ring'[x], ring[Source(k, |ring|, x)])
  }

  lemma TurnedOwnBlocks(bs: Blocks, ring: seq<Pcb>, ring': seq<Pcb>, k: nat)
    requires OwnBlocks(bs, ring) && Turned(ring, ring', k)
    ensures OwnBlocks(bs, ring')
  {
    hide OwnsBetween;
  }

  lemma TurnedPids(s: Sys, s': Sys, k: nat)
    requires DistinctPids(s) && Turned(s.ring, s'.ring, k) && s'.nextPid == s.nextPid
    ensures DistinctPids(s')
  {
  }

  lemma TickTurns(s: Sys, esp: uint32) returns (k: nat)
    requires s.running && s.ring != []
    ensures Turned(s.ring, Tick(s, esp).0.ring, k)
    ensures Tick(s, esp).0.nextPid == s.nextPid && Tick(s, esp).0.running
  {
    hide Tick, Pick;
    if Switches(s) {
      k := Pick(s.ring);
      forall x | 0 <= x < |s.ring|
        ensures x < |Tick(s, esp).0.ring| && SameIdentity(Tick(s, esp).0.ring[x], s.ring[Source(k, |s.ring|, x)])
      {
        TickSwitch(s, esp, x);
      }
      TickSwitch(s, esp, 0);
    } else {
      k := 0;
      TickStay(s, esp);
      var r := Tick(s, esp).0.ring;
      forall x | 0 <= x < |s.ring| ensures SameIdentity(r[x], s.ring[Source(0, |s.ring|, x)]) {
        if x > 0 {
          assert r[x] == r[1..][x - 1] == s.ring[1..][x - 1];
        }
      }
    }
  }

  lemma InterruptParked(mc: Machine, scratch: seq<byte>, x: nat)
    requires Inv(mc) && Allowed(mc, Interrupt(scratch)) && 1 <= x < |mc.sys.ring|
    ensures var mc' := Step(mc, Interrupt(scratch));
      x < |mc'.sys.ring| && Parked(mc', mc'.sys.ring[x])
  {
    hide Restore, Good, Owns, Interrupted, Tick, TickBytes, Stored, OwnBlocks, OwnsBetween, Pick;
    InterruptMemory(mc, scratch);
    var mc' := Step(mc, Interrupt(scratch));
    var esp := mc.cpu.esp - FRAME_BYTES;
    var ring, n := mc.sys.ring, |mc.sys.ring|;
    if Switches(mc.sys) {
      TickSwitch(mc.sys, esp, x);
      var i := Source(Pick(ring), n, x);
      if i != 0 {
        assert Parked(mc, ring[i]);
        IntactSame(mc.heap.mem, mc'.heap.mem, ring[i], mc.saved[ring[i].pid]);
      }
    } else {
      TickStay(mc.sys, esp);
      assert mc'.sys.ring[x] == mc'.sys.ring[1..][x - 1] == ring[1..][x - 1] == ring[x];
      assert Parked(mc, ring[x]);
      IntactSame(mc.heap.mem, mc'.heap.mem, ring[x], mc.saved[ring[x].pid]);
    }
  }

  lemma InterruptInv(mc: Machine, scratch: seq<byte>)
    requires Inv(mc) && Allowed(mc, Interrupt(scratch))
    ensures Inv(Step(mc, Interrupt(scratch)))
  {
    hide Restore, Good, Owns, Interrupted, Tick, TickBytes, Stored, OwnBlocks, OwnsBetween, DistinctPids, Parked;
    InterruptMemory(mc, scratch);
    var mc' := Step(mc, Interrupt(scratch));
    var k := TickTurns(mc.sys, mc.cpu.esp - FRAME_BYTES);
    TurnedOwnBlocks(mc.heap.blocks, mc.sys.ring, mc'.sys.ring, k);
    TurnedPids(mc.sys, mc'.sys, k);
    forall x | 1 <= x < |mc'.sys.ring| ensures Parked(mc', mc'.sys.ring[x]) {
      InterruptParked(mc, scratch, x);
    }
  }

  // ---------- Creation and control ----------

  lemma NewProcessKeeps(mc: Machine, entry: uint32, name: seq<byte>, priority: uint32)
    requires Base(mc) && Allowed(mc, NewProcess(entry, name, priority))
    ensures var mc', n := Step(mc, NewProcess(entry, name, priority)), |mc.sys.ring|;
      && Base(mc') && mc'.sys.running == mc.sys.running && n <= |mc'.sys.ring| <= n + 1
      && (forall i :: 0 <= i < n && Parked(mc, mc.sys.ring[i]) ==>
            mc'.sys.ring[i] == mc.sys.ring[i] && Parked(mc', mc.sys.ring[i]))
      && (n < |mc'.sys.ring| ==> Parked(mc', mc'.sys.ring[n]))
  {
    hide Restore, Good, Owns, OwnBlocks, OwnsBetween, CreateProcess, Parked, KeepsPayloads, Live, Stored, FreshStack,
      Named, SamePayload;
    var mc' := Step(mc, NewProcess(entry, name, priority));
    var h, s, ring := mc.heap, mc.sys, mc.sys.ring;
    if CreateProcess(mc.at, h, s, entry, name, priority).2 == 0 {
      CreateFails(mc.at, h, s, entry, name, priority);
      ConsistentKept(mc.at, h, mc'.heap, s);
    } else {
      var p := CreateSucceeds(mc.at, h, s, entry, name, priority);
      OldStacksKept(h, mc'.heap, ring);
      NewParked(mc', p, entry);
      assert mc'.sys.ring == ring + [p];
    }
    forall i | 0 <= i < |ring| && Parked(mc, ring[i]) ensures Parked(mc', ring[i]) {
      SavedStays(mc, mc', ring[i]);
      ParkedKept(mc, mc', ring[i]);
    }
  }

  lemma OldStacksKept(h: HeapState, h': HeapState, ring: seq<Pcb>)
    requires OwnBlocks(h.blocks, ring)
    requires forall q, t :: Owns(h.blocks, q, t) && NotTail(ring, q) ==> SamePayload(h, h', q, t)
    ensures forall i :: 0 <= i < |ring| ==> SameOn(h.mem, h'.mem, ring[i].stack, ring[i].stack + STACK_SIZE)
  {
    hide Owns;
    forall i | 0 <= i < |ring| ensures SameOn(h.mem, h'.mem, ring[i].stack, ring[i].stack + STACK_SIZE) {
      var t :| STACK_SIZE <= t <= STACK_SIZE + 16 && Owns(h.blocks, ring[i].stack, t);
      assert SamePayload(h, h', ring[i].stack, t);
    }
  }

  lemma NewProcessInv(mc: Machine, entry: uint32, name: seq<byte>, priority: uint32)
    requires Allowed(mc, NewProcess(entry, name, priority))
    ensures Inv(mc) ==> Inv(Step(mc, NewProcess(entry, name, priority)))
    ensures PreStart(mc) ==> PreStart(Step(mc, NewProcess(entry, name, priority)))
  {
    hide Parked, Step, Base;
    if Base(mc) {
      NewProcessKeeps(mc, entry, name, priority);
    }
  }

  lemma SavedStays(mc: Machine, mc': Machine, p: Pcb)
    requires Parked(mc, p) && p.pid < mc.sys.nextPid
    requires forall x :: x in mc.saved && x != mc.sys.nextPid ==> x in mc'.saved && mc'.saved[x] == mc.saved[x]
    ensures p.pid in mc.saved && p.pid in mc'.saved && mc'.saved[p.pid] == mc.saved[p.pid]
  {
  }

  lemma NewParked(mc: Machine, p: Pcb, entry: uint32)
    requires FreshStack(mc.heap.mem, p, entry)
    requires p.pid in mc.saved && mc.saved[p.pid] == InitialCpu(entry, Wrap32(p.stack + STACK_SIZE))
    ensures Parked(mc, p)
  {
    hide Restore;
  }

  /** Changes of state move nobody. */
  lemma ControlKeeps(s: Sys, e: Event)
    requires (e.Exit? || e.Block? || e.Unblock? || e.BlockOthers?) && Enabled(s, e)
    ensures var s' := Apply(s, e);
      && s'.running == s.running && s'.nextPid == s.nextPid && |s'.ring| == |s.ring|
      && forall x :: 0 <= x < |s.ring| ==> SameIdentity(s'.ring[x], s.ring[x]) && s'.ring[x].esp == s.ring[x].esp
  {
  }

  lemma ControlInv(mc: Machine, e: Event)
    requires Inv(mc) && Allowed(mc, Control(e))
    ensures Inv(Step(mc, Control(e)))
  {
    hide Restore, Good, OwnBlocks, OwnsBetween, DistinctPids, Apply, Stored, ControlBytes, SameOffTable;
    var mc' := Step(mc, Control(e));
    ControlKeeps(mc.sys, e);
    ControlStored(mc.at, mc.heap.mem, mc.sys, e);
    TableWrite(mc.at, mc.heap, mc'.heap.mem, mc.sys.ring);
    TurnedOwnBlocks(mc.heap.blocks, mc.sys.ring, mc'.sys.ring, 0);
    TurnedPids(mc.sys, mc'.sys, 0);
    forall i | 1 <= i < |mc'.sys.ring| ensures Parked(mc', mc'.sys.ring[i]) {
      assert Parked(mc, mc.sys.ring[i]);
      IntactSame(mc.heap.mem, mc'.heap.mem, mc.sys.ring[i], mc.saved[mc.sys.ring[i].pid]);
    }
  }

  lemma StepInv(mc: Machine, a: Action)
    requires Inv(mc) && Allowed(mc, a)
    ensures Inv(Step(mc, a))
  {
    hide Inv, Allowed, Step;
    match a
    case Execute(cpu, mem) => ExecuteInv(mc, cpu, mem);
    case Interrupt(scratch) => InterruptInv(mc, scratch);
    case NewProcess(entry, name, priority) => NewProcessInv(mc, entry, name, priority);
    case Control(e) => ControlInv(mc, e);
  }
}
