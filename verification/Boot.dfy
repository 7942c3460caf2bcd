/** kernel_main from process_init to the first timer interrupt. */
module Boot {
  import opened Bytes
  import opened HeapList
  import opened HeapBytes
  import HeapModel
  import opened Frames
  import Sched
  import opened Pcbs
  import opened Processes
  import opened Context
  import opened ContextRuns
  import Capacity
  import System

  const PRIORITY_LOW := 1
  const PRIORITY_NORMAL := 2
  const PRIORITY_HIGH := 4

  /** "Task-A", "Task-B", "Task-C" and "Shell". */
  const TASK_A: seq<byte> := [84, 97, 115, 107, 45, 65, 0]
  const TASK_B: seq<byte> := [84, 97, 115, 107, 45, 66, 0]
  const TASK_C: seq<byte> := [84, 97, 115, 107, 45, 67, 0]
  const SHELL: seq<byte> := [83, 104, 101, 108, 108, 0]

  /** Only processes have been created so far, k of them, and none has run. */
  ghost predicate Created(mc: Machine, k: nat) {
    && k <= Capacity.MAX_CREATED && PreStart(mc)
    && mc.heap.blocks == Capacity.Shape(k) && |mc.sys.ring| == k && mc.sys.nextPid == k + 1
    && forall i :: 0 <= i < k ==> mc.sys.ring[i].esp + FRAME_BYTES == mc.sys.ring[i].stack + STACK_SIZE
  }

  function Quanta(mc: Machine): (qs: seq<uint32>)
    ensures |qs| == |mc.sys.ring|
  {
    seq(|mc.sys.ring|, i requires 0 <= i < |mc.sys.ring| => mc.sys.ring[i].quantum)
  }

  lemma FreshCreated(at: Statics, m: Mem, cpu: Cpu)
    requires |m| == RAM_SIZE
    ensures Created(Fresh(at, m, cpu), 0)
  {
    hide PreStart, BootBytes, Capacity.Shape;
    FreshPreStart(at, m, cpu);
    Capacity.ShapeZero();
  }

  /** There is room for another process as long as there are fewer than 63. */
  lemma OneMore(mc: Machine, entry: uint32, name: seq<byte>, priority: uint32, k: nat)
    requires Created(mc, k) && k < Capacity.MAX_CREATED
    ensures Allowed(mc, NewProcess(entry, name, priority))
    ensures var mc' := Step(mc, NewProcess(entry, name, priority));
      Created(mc', k + 1) && Quanta(mc') == Quanta(mc) + [Sched.Quantum(priority)]
  {
    hide HeapModel.Good, Stored, OwnBlocks, Parked, CreateProcess, Capacity.Shape, FreshStack, Named, HeapModel.Live,
      HeapModel.SamePayload, HeapModel.Owns;
    var a := NewProcess(entry, name, priority);
    NewProcessInv(mc, entry, name, priority);
    Capacity.CreateShape(mc.at, mc.heap, mc.sys, Capacity.Request(entry, name, priority), k);
    var p := CreateSucceeds(mc.at, mc.heap, mc.sys, entry, name, priority);
    TopOfStack(Step(mc, a).heap.mem, p, entry);
    assert Step(mc, a).sys.ring == mc.sys.ring + [p];
  }

  lemma TopOfStack(m: Mem, p: Sched.Pcb, entry: uint32)
    requires FreshStack(m, p, entry)
    ensures p.esp + FRAME_BYTES == p.stack + STACK_SIZE
  {
    hide Restore;
  }

  lemma {:induction false} RunSnoc(mc: Machine, acts: seq<Action>, a: Action)
    requires AllowedRun(mc, acts) && Allowed(RunAll(mc, acts), a)
    ensures AllowedRun(mc, acts + [a]) && RunAll(mc, acts + [a]) == Step(RunAll(mc, acts), a)
    decreases |acts|
  {
    hide Allowed, Step;
    if acts == [] {
      assert acts + [a] == [a] && [a][1..] == [];
    } else {
      assert (acts + [a])[1..] == acts[1..] + [a];
      RunSnoc(Step(mc, acts[0]), acts[1..], a);
    }
  }

  /** After the start the first process has its whole stack left for frame and handlers. */
  lemma FirstInterrupt(mc: Machine, k: nat, scratch: seq<byte>)
    requires Created(mc, k) && k > 0 && |scratch| <= STACK_SIZE - FRAME_BYTES
    ensures Inv(Started(mc)) && Allowed(Started(mc), Interrupt(scratch))
    ensures AllowedRun(Started(mc), [Interrupt(scratch)])
    ensures RunAll(Started(mc), [Interrupt(scratch)]) == Step(Started(mc), Interrupt(scratch))
  {
    hide Step, PreStart, Inv, PopAll, ControlBytes, Capacity.Shape;
    StartInv(mc);
    StackBelow(mc);
    assert [Interrupt(scratch)][1..] == [];
  }

  lemma StackBelow(mc: Machine)
    requires PreStart(mc) && mc.sys.ring != []
    ensures mc.sys.ring[0].stack + STACK_SIZE <= HEAP_END
  {
    hide HeapModel.Good, Stored, HeapModel.OwnsBetween, Parked;
    StackOffTable(mc.at, mc.heap, mc.sys.ring, 0);
  }

  /** One process_create call of kernel_main; done is what it has called before. */
  method CreateNext(m: System.Machine, ghost boot: Machine, ghost done: seq<Action>,
                    entry: uint32, name: seq<byte>, priority: uint32)
    requires m.Valid() && 0 in name && |done| < Capacity.MAX_CREATED
    requires AllowedRun(boot, done) && m.State() == RunAll(boot, done) && Created(m.State(), |done|)
    modifies m, m.mem, m.heap, m.table
    ensures m.Valid() && Created(m.State(), |done| + 1)
    ensures AllowedRun(boot, done + [NewProcess(entry, CString(name), priority)])
    ensures m.State() == RunAll(boot, done + [NewProcess(entry, CString(name), priority)])
    ensures Quanta(m.State()) == old(Quanta(m.State())) + [Sched.Quantum(priority)]
  {
    hide Step, PreStart, Base, Inv, AllowedRun, RunAll, Allowed, Capacity.Shape, CreateProcess;
    OneMore(m.State(), entry, CString(name), priority, |done|);
    RunSnoc(boot, done, NewProcess(entry, CString(name), priority));
    BaseOf(m.State());
    var p := m.ProcessCreate(entry, name, priority);
  }

  lemma BaseOf(mc: Machine)
    requires PreStart(mc)
    ensures Base(mc)
  {
    hide Base, Parked;
  }

  /** kernel_main's four calls of process_create. */
  function FourCreations(taskA: uint32, taskB: uint32, taskC: uint32, shell: uint32): seq<Action> {
    [NewProcess(taskA, CString(TASK_A), PRIORITY_HIGH), NewProcess(taskB, CString(TASK_B), PRIORITY_NORMAL),
     NewProcess(taskC, CString(TASK_C), PRIORITY_LOW), NewProcess(shell, CString(SHELL), PRIORITY_HIGH)]
  }

  /** Lines 241 to 244 of kernel.c. */
  method CreateFour(m: System.Machine, taskA: uint32, taskB: uint32, taskC: uint32, shell: uint32)
    requires m.Valid() && Created(m.State(), 0)
    modifies m, m.mem, m.heap, m.table
    ensures m.Valid() && Created(m.State(), 4)
    ensures AllowedRun(old(m.State()), FourCreations(taskA, taskB, taskC, shell))
    ensures m.State() == RunAll(old(m.State()), FourCreations(taskA, taskB, taskC, shell))
    ensures Quanta(m.State()) == [20, 10, 5, 20]
  {
    hide Step, PreStart, Base, Inv, AllowedRun, RunAll, Allowed, Created, CString, Quanta, FourCreations,
      System.Machine.Valid, System.Machine.State;
    ghost var boot := m.State();
    ghost var a := FourCreations(taskA, taskB, taskC, shell);
    FourAt(taskA, taskB, taskC, shell);
    RunNothing(boot);
    NoQuanta(boot);
    CreateNext(m, boot, a[..0], taskA, TASK_A, PRIORITY_HIGH);
    CreateNext(m, boot, a[..1], taskB, TASK_B, PRIORITY_NORMAL);
    CreateNext(m, boot, a[..2], taskC, TASK_C, PRIORITY_LOW);
    CreateNext(m, boot, a[..3], shell, SHELL, PRIORITY_HIGH);
  }

  lemma FourAt(taskA: uint32, taskB: uint32, taskC: uint32, shell: uint32)
    ensures var a := FourCreations(taskA, taskB, taskC, shell);
      && |a| == 4 && a[..0] == []
      && a[..1] == a[..0] + [NewProcess(taskA, CString(TASK_A), PRIORITY_HIGH)]
      && a[..2] == a[..1] + [NewProcess(taskB, CString(TASK_B), PRIORITY_NORMAL)]
      && a[..3] == a[..2] + [NewProcess(taskC, CString(TASK_C), PRIORITY_LOW)]
      && a == a[..3] + [NewProcess(shell, CString(SHELL), PRIORITY_HIGH)]
    ensures 0 in TASK_A && 0 in TASK_B && 0 in TASK_C && 0 in SHELL
  {
    hide CString;
    assert TASK_A[6] == TASK_B[6] == TASK_C[6] == SHELL[5] == 0;
  }

  lemma NoQuanta(mc: Machine)
    requires Created(mc, 0)
    ensures Quanta(mc) == []
  {
  }

  /** Lines 233 to 259 of kernel.c and the first timer interrupt after them: memory goes from anything
      to a state of the run that the model describes, with four processes of quanta 20, 10, 5 and 20. */
  method KernelMain(mem: array<byte>, at: Statics, cpu: Cpu, taskA: uint32, taskB: uint32, taskC: uint32, shell: uint32,
                    scratch: seq<byte>)
    returns (m: System.Machine)
    requires mem.Length == RAM_SIZE && |scratch| <= STACK_SIZE - FRAME_BYTES
    modifies mem
    ensures fresh(m) && m.Valid() && Inv(m.State())
    ensures var boot, acts := Fresh(at, old(mem[..]), cpu), FourCreations(taskA, taskB, taskC, shell);
      && AllowedRun(boot, acts)
      && var mc := RunAll(boot, acts);
      && Quanta(mc) == [20, 10, 5, 20]
      && AllowedRun(Started(mc), [Interrupt(scratch)])
      && m.State() == RunAll(Started(mc), [Interrupt(scratch)])
  {
    hide Step, PreStart, Base, Inv, AllowedRun, RunAll, Allowed, Created, Started, Quanta;
    FreshCreated(at, mem[..], cpu);
    m := new System.Machine(mem, at, cpu);
    CreateFour(m, taskA, taskB, taskC, shell);
    CreatedSome(m.State(), 4);
    FirstInterrupt(m.State(), 4, scratch);
    m.SchedulerStart();
    m.Irq0(scratch);
  }

  lemma CreatedSome(mc: Machine, k: nat)
    requires Created(mc, k) && k > 0
    ensures PreStart(mc) && mc.sys.ring != []
  {
    hide PreStart;
  }

  lemma RunNothing(mc: Machine)
    ensures AllowedRun(mc, []) && RunAll(mc, []) == mc
  {
  }
}
