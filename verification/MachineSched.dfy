/** The machine's runs as runs of the scheduler, and bounded waiting down to the registers. */
module MachineSched {
  import opened Bytes
  import opened HeapModel
  import opened Frames
  import opened Sched
  import opened SchedWait
  import opened Pcbs
  import opened Processes
  import opened Context
  import HeapBytes
  import ContextRuns

  /** What an action of the machine is to the process table. */
  ghost function EventsOf(mc: Machine, a: Action): (es: seq<Event>)
    requires Allowed(mc, a)
    ensures |es| <= 1
  {
    match a
    case Execute(_, _) => []
    case Interrupt(_) => [TickEvent(Wrap32(mc.cpu.esp - FRAME_BYTES))]
    case NewProcess(entry, name, priority) =>
      var (_, pcb, stack) := NewBlocks(mc.heap);
      if pcb == 0 then [] else [Create(pcb, priority, Wrap32(stack + STACK_SIZE - FRAME_BYTES), stack)]
    case Control(e) => [e]
  }

  ghost function Events(mc: Machine, acts: seq<Action>): seq<Event>
    requires ContextRuns.AllowedRun(mc, acts)
    decreases |acts|
  {
    if acts == [] then [] else EventsOf(mc, acts[0]) + Events(Step(mc, acts[0]), acts[1..])
  }

  lemma StepEvents(mc: Machine, a: Action)
    requires Allowed(mc, a)
    ensures EnabledRun(mc.sys, EventsOf(mc, a))
    ensures Run(mc.sys, EventsOf(mc, a)) == Step(mc, a).sys
  {
    hide NewBlocks, BuildBytes, Good, Tick, TickBytes, Restore, ControlBytes;
    if EventsOf(mc, a) != [] {
      RunOne(mc.sys, EventsOf(mc, a)[0]);
    }
  }

  lemma RunOne(s: Sys, e: Event)
    requires Enabled(s, e)
    ensures EnabledRun(s, [e]) && Run(s, [e]) == Apply(s, e)
  {
    hide Apply;
    assert [e][1..] == [];
  }

  lemma {:induction false} RunConcat(s: Sys, es: seq<Event>, fs: seq<Event>)
    requires EnabledRun(s, es) && EnabledRun(Run(s, es), fs)
    ensures EnabledRun(s, es + fs) && Run(s, es + fs) == Run(Run(s, es), fs)
    decreases |es|
  {
    hide Apply;
    if es == [] {
      assert es + fs == fs;
    } else {
      assert (es + fs)[1..] == es[1..] + fs;
      RunConcat(Apply(s, es[0]), es[1..], fs);
    }
  }

  /** The process table of a machine run is that of its events. */
  lemma {:induction false} RunEvents(mc: Machine, acts: seq<Action>)
    requires ContextRuns.AllowedRun(mc, acts)
    ensures EnabledRun(mc.sys, Events(mc, acts))
    ensures Run(mc.sys, Events(mc, acts)) == ContextRuns.RunAll(mc, acts).sys
    decreases |acts|
  {
    hide Allowed, Step, EventsOf;
    if acts != [] {
      var mc1 := Step(mc, acts[0]);
      StepEvents(mc, acts[0]);
      RunEvents(mc1, acts[1..]);
      RunConcat(mc.sys, EventsOf(mc, acts[0]), Events(mc1, acts[1..]));
    }
  }

  // ---------- Bounded waiting, down to the registers ----------

  function Interrupts(acts: seq<Action>): nat {
    if acts == [] then 0 else (if acts[0].Interrupt? then 1 else 0) + Interrupts(acts[1..])
  }

  /** New processes have a positive priority. */
  predicate LawfulRun(acts: seq<Action>) {
    forall a :: a in acts ==> a.NewProcess? ==> a.priority >= 1
  }

  lemma {:induction false} TickCountConcat(es: seq<Event>, fs: seq<Event>)
    ensures TickCount(es + fs) == TickCount(es) + TickCount(fs)
  {
    if es == [] {
      assert es + fs == fs;
    } else {
      assert (es + fs)[1..] == es[1..] + fs;
      TickCountConcat(es[1..], fs);
    }
  }

  lemma OneEvent(mc: Machine, a: Action)
    requires Allowed(mc, a) && (a.NewProcess? ==> a.priority >= 1)
    ensures TickCount(EventsOf(mc, a)) == if a.Interrupt? then 1 else 0
    ensures forall e :: e in EventsOf(mc, a) ==> Lawful(e)
  {
    hide NewBlocks, Good;
    var es := EventsOf(mc, a);
    assert es != [] ==> es[1..] == [] && es == [es[0]];
  }

  lemma {:induction false} EventsLawful(mc: Machine, acts: seq<Action>)
    requires ContextRuns.AllowedRun(mc, acts) && LawfulRun(acts)
    ensures TickCount(Events(mc, acts)) == Interrupts(acts)
    ensures forall e :: e in Events(mc, acts) ==> Lawful(e)
    decreases |acts|
  {
    hide Allowed, Step, EventsOf, TickCount, Lawful;
    if acts == [] {
      assert TickCount([]) == 0 by { NoTicks(); }
    } else {
      assert acts[0] in acts && forall a :: a in acts[1..] ==> a in acts;
      OneEvent(mc, acts[0]);
      EventsLawful(Step(mc, acts[0]), acts[1..]);
      TickCountConcat(EventsOf(mc, acts[0]), Events(Step(mc, acts[0]), acts[1..]));
    }
  }

  lemma NoTicks()
    ensures TickCount([]) == 0
  {
  }

  /** Until pid becomes current it is READY in every state of the run. */
  ghost predicate ReadyUntilCurrent(mc: Machine, acts: seq<Action>, pid: uint32)
    requires ContextRuns.AllowedRun(mc, acts)
  {
    RunEvents(mc, acts);
    StaysReady(mc.sys, Events(mc, acts), pid)
  }

  lemma BecomesLater(s: Sys, es: seq<Event>, fs: seq<Event>, pid: uint32)
    requires |es| <= 1 && EnabledRun(s, es) && EnabledRun(Run(s, es), fs) && EnabledRun(s, es + fs)
    requires BecomesCurrent(s, es + fs, pid) && !(s.ring != [] && s.ring[0].pid == pid)
    ensures BecomesCurrent(Run(s, es), fs, pid)
  {
    hide Apply;
    if es == [] {
      assert es + fs == fs;
    } else {
      assert (es + fs)[1..] == fs && (es + fs)[0] == es[0] && es[1..] == [];
    }
  }

  /** The action with which pid becomes current is an interrupt, and it loads what pid was saved with. */
  lemma {:induction false} FirstCurrent(mc: Machine, acts: seq<Action>, pid: uint32) returns (k: nat)
    requires Inv(mc) && ContextRuns.AllowedRun(mc, acts) && !ContextRuns.IsCurrent(mc, pid)
    requires pid in mc.saved && pid < mc.sys.nextPid
    requires EnabledRun(mc.sys, Events(mc, acts)) && BecomesCurrent(mc.sys, Events(mc, acts), pid)
    ensures k < |acts| && ContextRuns.AllowedRun(mc, acts[..k]) && ContextRuns.Away(mc, acts[..k], pid)
    ensures var mc1 := ContextRuns.RunAll(mc, acts[..k]);
      && acts[k].Interrupt? && Allowed(mc1, acts[k])
      && ContextRuns.IsCurrent(Step(mc1, acts[k]), pid) && Step(mc1, acts[k]).cpu == mc.saved[pid]
    decreases |acts|
  {
    hide Inv, Allowed, Step, EventsOf;
    var a, mc1 := acts[0], Step(mc, acts[0]);
    if ContextRuns.IsCurrent(mc1, pid) {
      k := 0;
      ContextRuns.BecomesCurrent(mc, a, pid);
    } else {
      StepEvents(mc, a);
      RunEvents(mc1, acts[1..]);
      BecomesLater(mc.sys, EventsOf(mc, a), Events(mc1, acts[1..]), pid);
      StepInv(mc, a);
      ContextRuns.SavedKept(mc, a, pid);
      var l := FirstCurrent(mc1, acts[1..], pid);
      k := l + 1;
      assert acts[..k][1..] == acts[1..][..l];
    }
  }

  lemma ParkedSaved(mc: Machine, d: nat)
    requires Inv(mc) && 1 <= d < |mc.sys.ring|
    ensures mc.sys.ring[d].pid in mc.saved && mc.sys.ring[d].pid < mc.sys.nextPid
    ensures !ContextRuns.IsCurrent(mc, mc.sys.ring[d].pid)
  {
    hide Consistent, Intact;
    assert Parked(mc, mc.sys.ring[d]);
  }

  /** A process that waits READY becomes current within Bound interrupts, however far away it is and
      whatever runs, is created, exits or is blocked meanwhile, and at that moment the processor holds
      exactly the state it was parked with. */
  lemma BoundedResume(mc: Machine, acts: seq<Action>, d: nat) returns (k: nat)
    requires Inv(mc) && Timely(mc.sys) && ContextRuns.AllowedRun(mc, acts) && LawfulRun(acts)
    requires OnlyCurrentDead(mc.sys) && 1 <= d < |mc.sys.ring|
    requires ReadyUntilCurrent(mc, acts, mc.sys.ring[d].pid)
    requires Interrupts(acts) >= Bound(mc.sys, d)
    ensures k < |acts| && ContextRuns.AllowedRun(mc, acts[..k]) && ContextRuns.Away(mc, acts[..k], mc.sys.ring[d].pid)
    ensures var mc1, pid := ContextRuns.RunAll(mc, acts[..k]), mc.sys.ring[d].pid;
      && acts[k].Interrupt? && Allowed(mc1, acts[k])
      && ContextRuns.IsCurrent(Step(mc1, acts[k]), pid)
      && pid in mc.saved && Step(mc1, acts[k]).cpu == mc.saved[pid]
  {
    hide Inv, Allowed, Step, Events, Bound, BecomesCurrent, StaysReady;
    var pid := mc.sys.ring[d].pid;
    RunEvents(mc, acts);
    EventsLawful(mc, acts);
    BoundedWaiting(mc.sys, Events(mc, acts), d);
    ParkedSaved(mc, d);
    k := FirstCurrent(mc, acts, pid);
  }

  // ---------- From boot ----------

  /** Initialisation, creations, the start, and anything running code may do after it. */
  ghost predicate BootRun(at: Statics, m: Mem, cpu: Cpu, creations: seq<Action>, acts: seq<Action>) {
    && |m| == HeapBytes.RAM_SIZE && LawfulRun(creations) && LawfulRun(acts)
    && ContextRuns.Creations(creations) && ContextRuns.AllowedRun(ContextRuns.Fresh(at, m, cpu), creations)
    && var mc := ContextRuns.RunAll(ContextRuns.Fresh(at, m, cpu), creations);
    && mc.sys.ring != []
    && ContextRuns.AllowedRun(ContextRuns.Started(mc), acts)
  }

  ghost function FromBoot(at: Statics, m: Mem, cpu: Cpu, creations: seq<Action>, acts: seq<Action>): Machine
    requires BootRun(at, m, cpu, creations, acts)
  {
    ContextRuns.RunAll(ContextRuns.Started(ContextRuns.RunAll(ContextRuns.Fresh(at, m, cpu), creations)), acts)
  }

  lemma RunKeepsWaits(mc: Machine, acts: seq<Action>)
    requires ContextRuns.AllowedRun(mc, acts) && LawfulRun(acts) && Wound(mc.sys) && OnlyCurrentDead(mc.sys)
    ensures Wound(ContextRuns.RunAll(mc, acts).sys) && OnlyCurrentDead(ContextRuns.RunAll(mc, acts).sys)
  {
    hide Wound, OnlyCurrentDead, Run, EnabledRun, Events, Lawful;
    RunEvents(mc, acts);
    EventsLawful(mc, acts);
    RunWound(mc.sys, Events(mc, acts));
    RunOnlyCurrentDead(mc.sys, Events(mc, acts));
  }

  /** In every state of the machine reached from boot memory represents a process table in which only
      the current process can be DEAD, with the tick count below its quantum. */
  lemma ReachableMachine(at: Statics, m: Mem, cpu: Cpu, creations: seq<Action>, acts: seq<Action>)
    requires BootRun(at, m, cpu, creations, acts)
    ensures var mc := FromBoot(at, m, cpu, creations, acts);
      Inv(mc) && Timely(mc.sys) && OnlyCurrentDead(mc.sys)
  {
    hide ContextRuns.RunAll, ContextRuns.AllowedRun, LawfulRun, OnlyCurrentDead, Base, Apply, PreStart, Stored;
    var boot := ContextRuns.Fresh(at, m, cpu);
    var mc := ContextRuns.RunAll(boot, creations);
    ContextRuns.ReachableInv(at, m, cpu, creations, acts);
    BootWaits();
    RunKeepsWaits(boot, creations);
    StepWound(mc.sys, Start);
    StepOnlyCurrentDead(mc.sys, Start);
    RunKeepsWaits(ContextRuns.Started(mc), acts);
  }

  lemma BootWaits()
    ensures Wound(BOOT) && OnlyCurrentDead(BOOT)
  {
  }

  /** Bounded waiting from boot: in every state reached, every process that waits READY gets the
      processor within Bound interrupts, in exactly the state it was parked with. */
  lemma ResumeFromBoot(at: Statics, m: Mem, cpu: Cpu, creations: seq<Action>, before: seq<Action>, acts: seq<Action>, d: nat)
    returns (k: nat)
    requires BootRun(at, m, cpu, creations, before)
    requires var mc := FromBoot(at, m, cpu, creations, before);
      && ContextRuns.AllowedRun(mc, acts) && LawfulRun(acts) && 1 <= d < |mc.sys.ring|
      && ReadyUntilCurrent(mc, acts, mc.sys.ring[d].pid)
      && Interrupts(acts) >= Bound(mc.sys, d)
    ensures var mc := FromBoot(at, m, cpu, creations, before);
      var pid := mc.sys.ring[d].pid;
      && k < |acts| && ContextRuns.AllowedRun(mc, acts[..k]) && ContextRuns.Away(mc, acts[..k], pid)
      && var mc1 := ContextRuns.RunAll(mc, acts[..k]);
      && acts[k].Interrupt? && Allowed(mc1, acts[k])
      && ContextRuns.IsCurrent(Step(mc1, acts[k]), pid)
      && pid in mc.saved && Step(mc1, acts[k]).cpu == mc.saved[pid]
  {
    hide FromBoot, BootRun, Inv, Timely, OnlyCurrentDead, Allowed, Step, LawfulRun, ReadyUntilCurrent, Bound;
    ReachableMachine(at, m, cpu, creations, before);
    k := BoundedResume(FromBoot(at, m, cpu, creations, before), acts, d);
  }
}
