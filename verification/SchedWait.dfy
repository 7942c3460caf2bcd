/** Bounded waiting and CPU capture, over every run of the scheduler. */
module SchedWait {
  import opened Bytes
  import opened Sched

  function SumQuanta(ring: seq<Pcb>): nat {
    if ring == [] then 0 else ring[0].quantum + SumQuanta(ring[1..])
  }

  /** A started system inside its contract: every quantum positive, the current turn unfinished. */
  ghost predicate Timely(s: Sys) {
    && s.running && s.ring != []
    && s.tick < s.ring[0].quantum
    && forall i :: 0 <= i < |s.ring| ==> s.ring[i].quantum >= 1
  }

  predicate Lawful(e: Event) {
    e.Create? ==> e.priority >= 1
  }

  lemma QuantumPositive(priority: uint32)
    requires priority >= 1
    ensures Quantum(priority) >= 1
  {
  }

  lemma StepTimely(s: Sys, e: Event)
    requires Timely(s) && Enabled(s, e) && Lawful(e)
    ensures Timely(Apply(s, e))
  {
    match e
    case TickEvent(esp) =>
      if Switches(s) {
        forall x | 0 <= x < |s.ring| ensures Tick(s, esp).0.ring[x].quantum >= 1 {
          TickSwitch(s, esp, x);
        }
        TickSwitch(s, esp, 0);
      } else {
        TickStay(s, esp);
        var s' := Tick(s, esp).0;
        forall x | 1 <= x < |s.ring| ensures s'.ring[x].quantum >= 1 {
          assert s'.ring[x] == s'.ring[1..][x - 1] == s.ring[1..][x - 1];
        }
      }
    case Create(addr, priority, esp, stack) => QuantumPositive(priority);
    case _ =>
  }

  /** Ticks that can pass before the process d places ahead gets the processor: what is left of the
      current turn and one full quantum for each process strictly between. */
  function Bound(s: Sys, d: nat): int
    requires 1 <= d < |s.ring|
  {
    s.ring[0].quantum - s.tick + SumQuanta(s.ring[1..d])
  }

  lemma {:induction false} SumQuantaConcat(a: seq<Pcb>, b: seq<Pcb>)
    ensures SumQuanta(a + b) == SumQuanta(a) + SumQuanta(b)
  {
    if a == [] {
      assert a + b == b;
    } else {
      assert (a + b)[1..] == a[1..] + b;
      SumQuantaConcat(a[1..], b);
    }
  }

  lemma {:induction false} SumQuantaSame(a: seq<Pcb>, b: seq<Pcb>)
    requires |a| == |b| && forall i :: 0 <= i < |a| ==> a[i].quantum == b[i].quantum
    ensures SumQuanta(a) == SumQuanta(b)
  {
    if a != [] {
      SumQuantaSame(a[1..], b[1..]);
    }
  }

  lemma SumQuantaDrop(ring: seq<Pcb>, k: nat, d: nat)
    requires 1 <= k < d <= |ring|
    ensures SumQuanta(ring[1..d]) >= ring[k].quantum + SumQuanta(ring[k + 1..d])
  {
    var between := [ring[k]] + ring[k + 1..d];
    assert ring[1..d] == ring[1..k] + between;
    SumQuantaConcat(ring[1..k], between);
    assert between[1..] == ring[k + 1..d];
  }

  lemma SwitchShortensWait(s: Sys, esp: uint32, d: nat)
    requires Timely(s) && OnlyCurrentDead(s) && 1 <= d < |s.ring| && s.ring[d].state.Ready?
    requires Switches(s)
    ensures var s', k := Tick(s, esp).0, Pick(s.ring);
      && k <= d && d - k < |s'.ring| && s'.ring[d - k].pid == s.ring[d].pid
      && (d > k ==> Bound(s', d - k) <= Bound(s, d) - 1)
  {
    hide Tick, Pick, SumQuanta;
    var s' := Tick(s, esp).0;
    var k := Pick(s.ring);
    PickBefore(s.ring, d);
    TickSwitch(s, esp, d - k);
    TickSwitch(s, esp, 0);
    if k < d {
      SumQuantaDrop(s.ring, k, d);
      SwitchBetween(s, esp, d);
    }
  }

  /** The processes between the new current one and the one at d are as they were. */
  lemma SwitchBetween(s: Sys, esp: uint32, d: nat)
    requires Switches(s) && Pick(s.ring) < d < |s.ring|
    ensures var s', k := Tick(s, esp).0, Pick(s.ring);
      d - k < |s'.ring| && s'.ring[1..d - k] == s.ring[k + 1..d]
  {
    hide Tick, Pick;
    var s', k := Tick(s, esp).0, Pick(s.ring);
    TickSwitch(s, esp, d - k);
    var near, far := s'.ring[1..d - k], s.ring[k + 1..d];
    forall x | 0 <= x < |near| ensures near[x] == far[x] {
      TickSwitch(s, esp, x + 1);
    }
    assert near == far;
  }

  /** One tick brings the process waiting READY at d closer, at whatever distance: either it
      becomes current, or its bound drops by at least one. */
  lemma TickShortensWait(s: Sys, esp: uint32, d: nat)
    requires Timely(s) && OnlyCurrentDead(s) && 1 <= d < |s.ring| && s.ring[d].state.Ready?
    ensures var s', d' := Tick(s, esp).0, if Switches(s) then d - Pick(s.ring) else d;
      && 0 <= d' <= d && d' < |s'.ring| && s'.ring[d'].pid == s.ring[d].pid
      && (d' > 0 ==> Bound(s', d') <= Bound(s, d) - 1)
  {
    hide Tick;
    var s' := Tick(s, esp).0;
    if Switches(s) {
      SwitchShortensWait(s, esp, d);
    } else {
      PickBefore(s.ring, d);
      TickStay(s, esp);
      assert s'.ring[1..][d - 1] == s.ring[1..][d - 1];
      assert s'.ring[1..d] == s'.ring[1..][..d - 1] == s.ring[1..][..d - 1] == s.ring[1..d];
    }
  }

  lemma OtherKeepsPlaces(s: Sys, e: Event)
    requires s.ring != [] && Enabled(s, e) && !e.TickEvent?
    ensures var s' := Apply(s, e);
      && s'.tick == s.tick && |s.ring| <= |s'.ring|
      && forall i :: 0 <= i < |s.ring| ==> s'.ring[i].quantum == s.ring[i].quantum && s'.ring[i].pid == s.ring[i].pid
  {
    hide Tick;
    match e
    case BlockOthers =>
      assert forall i :: 1 <= i < |s.ring| ==> Apply(s, e).ring[i] == BlockAll(s.ring[1..])[i - 1];
    case _ =>
  }

  /** Nothing but a tick moves a waiting process or changes its bound. */
  lemma OtherKeepsWait(s: Sys, e: Event, d: nat)
    requires Timely(s) && Enabled(s, e) && !e.TickEvent? && 1 <= d < |s.ring|
    ensures var s' := Apply(s, e);
      && d < |s'.ring| && s'.ring[d].pid == s.ring[d].pid && Bound(s', d) == Bound(s, d)
  {
    hide Apply;
    OtherKeepsPlaces(s, e);
    SumQuantaSame(s.ring[1..d], Apply(s, e).ring[1..d]);
  }

  // ---------- From boot ----------

  /** Timely, or not yet started with no tick counted. */
  ghost predicate Wound(s: Sys) {
    if s.running then Timely(s)
    else s.tick == 0 && forall i :: 0 <= i < |s.ring| ==> s.ring[i].quantum >= 1
  }

  lemma StepWound(s: Sys, e: Event)
    requires Wound(s) && Enabled(s, e) && Lawful(e)
    ensures Wound(Apply(s, e))
  {
    if s.running {
      StepTimely(s, e);
      KeepsRunning(s, e);
    } else {
      match e
      case TickEvent(esp) => TickIdle(s, esp);
      case Create(addr, priority, esp, stack) => QuantumPositive(priority);
      case _ =>
    }
  }

  lemma KeepsRunning(s: Sys, e: Event)
    requires s.running && Enabled(s, e)
    ensures Apply(s, e).running
  {
    hide Pick, Rotate;
  }

  lemma {:induction false} RunWound(s: Sys, es: seq<Event>)
    requires Wound(s) && EnabledRun(s, es) && forall e :: e in es ==> Lawful(e)
    ensures Wound(Run(s, es))
    decreases |es|
  {
    hide Apply, Wound, Lawful;
    if es != [] {
      assert es[0] in es;
      StepWound(s, es[0]);
      RunWound(Apply(s, es[0]), es[1..]);
    }
  }

  /** What bounded waiting asks of a state holds of every state reached from boot once the scheduler
      runs. */
  lemma ReachableWaits(es: seq<Event>)
    requires EnabledRun(BOOT, es) && forall e :: e in es ==> Lawful(e)
    ensures OnlyCurrentDead(Run(BOOT, es))
    ensures Run(BOOT, es).running ==> Timely(Run(BOOT, es))
  {
    hide Run;
    RunWound(BOOT, es);
    DeadIsCurrent(es);
  }

  // ---------- Bounded waiting ----------

  function TickCount(es: seq<Event>): nat {
    if es == [] then 0 else (if es[0].TickEvent? then 1 else 0) + TickCount(es[1..])
  }

  /** pid is current at some moment of the run. */
  ghost predicate BecomesCurrent(s: Sys, es: seq<Event>, pid: uint32)
    requires EnabledRun(s, es)
    decreases |es|
  {
    || (s.ring != [] && s.ring[0].pid == pid)
    || (es != [] && BecomesCurrent(Apply(s, es[0]), es[1..], pid))
  }

  /** Until pid becomes current, it is READY at every moment of the run. */
  ghost predicate StaysReady(s: Sys, es: seq<Event>, pid: uint32)
    requires EnabledRun(s, es)
    decreases |es|
  {
    || (s.ring != [] && s.ring[0].pid == pid)
    || ((forall i :: 0 <= i < |s.ring| && s.ring[i].pid == pid ==> s.ring[i].state.Ready?)
        && (es != [] ==> StaysReady(Apply(s, es[0]), es[1..], pid)))
  }

  /** Bounded waiting. A process that stays READY becomes current before more than Bound(s, d) ticks
      have passed, at whatever ring distance d, whatever processes are created, exit, are blocked or
      unblocked meanwhile. */
  lemma {:induction false} BoundedWaiting(s: Sys, es: seq<Event>, d: nat)
    requires Timely(s) && EnabledRun(s, es) && (forall e :: e in es ==> Lawful(e))
    requires OnlyCurrentDead(s) && 1 <= d < |s.ring|
    requires StaysReady(s, es, s.ring[d].pid)
    requires TickCount(es) >= Bound(s, d)
    ensures BecomesCurrent(s, es, s.ring[d].pid)
    decreases |es|
  {
    var pid := s.ring[d].pid;
    if s.ring[0].pid != pid && es != [] {
      assert es[0] in es;
      StepTimely(s, es[0]);
      StepOnlyCurrentDead(s, es[0]);
      var s' := Apply(s, es[0]);
      match es[0] {
        case TickEvent(esp) =>
          TickShortensWait(s, esp, d);
          var d' := if Switches(s) then d - Pick(s.ring) else d;
          if d' > 0 {
            BoundedWaiting(s', es[1..], d');
          } else {
            assert BecomesCurrent(s', es[1..], pid);
          }
        case _ =>
          OtherKeepsWait(s, es[0], d);
          BoundedWaiting(s', es[1..], d);
      }
    }
  }

  // ---------- CPU capture ----------

  lemma {:induction false} ScanHome(ring: seq<Pcb>, i: nat, a: nat)
    requires 1 <= i < |ring| && a <= MAX_PROCESSES && |ring| - i <= MAX_PROCESSES - a
    requires forall j :: i <= j < |ring| ==> Skipped(ring[j])
    requires !Skipped(ring[0])
    ensures Scan(ring, i, a) == 0
    decreases |ring| - i
  {
    if i + 1 < |ring| {
      ScanHome(ring, i + 1, a + 1);
    }
  }

  lemma {:induction false} ScanGivesUp(ring: seq<Pcb>, i: nat, a: nat)
    requires a <= MAX_PROCESSES && i + (MAX_PROCESSES - a) < |ring|
    requires forall j :: i <= j < i + (MAX_PROCESSES - a) ==> Skipped(ring[j])
    ensures Scan(ring, i, a) == i + (MAX_PROCESSES - a)
    decreases MAX_PROCESSES - a
  {
    if a < MAX_PROCESSES {
      ScanGivesUp(ring, i + 1, a + 1);
    }
  }

  /** The current process is RUNNING and nobody else can run. */
  ghost predicate Captured(s: Sys) {
    && s.ring != [] && s.ring[0].state.Running?
    && forall i :: 1 <= i < |s.ring| ==> Skipped(s.ring[i])
  }

  lemma BlockOthersCaptures(s: Sys)
    requires s.ring != [] && s.ring[0].state.Running?
    ensures Captured(Apply(s, BlockOthers))
    ensures Apply(s, BlockOthers).ring[0] == s.ring[0]
  {
    var r := Apply(s, BlockOthers).ring;
    assert forall i :: 1 <= i < |r| ==> r[i] == BlockAll(s.ring[1..])[i - 1];
  }

  /** With everybody else blocked or dead, the current process loses the processor at the end of
      its quantum exactly when the ring has more than 17 processes and the one 17 places ahead is
      not dead: there the scan gives up and runs a blocked process. */
  lemma CaptureExact(s: Sys)
    requires Captured(s) && s.running && Expires(s)
    ensures Switches(s) <==> |s.ring| > MAX_PROCESSES + 1 && s.ring[MAX_PROCESSES + 1].state.Blocked?
  {
    if |s.ring| > MAX_PROCESSES + 1 {
      ScanGivesUp(s.ring, 1, 0);
    } else if |s.ring| > 1 {
      ScanHome(s.ring, 1, 0);
    }
  }

  /** In every reachable state it is the size of the ring that decides. */
  lemma CaptureBySize(s: Sys)
    requires Captured(s) && OnlyCurrentDead(s) && s.running && Expires(s)
    ensures Switches(s) <==> |s.ring| > 17
  {
    hide Pick;
    CaptureExact(s);
  }

  /** Events that neither create nor unblock a process nor stop the current one. */
  predicate Quiet(e: Event) {
    e.TickEvent? || e.BlockOthers? || e.Start? || (e.Block? && e.i > 0)
  }

  lemma QuietStep(s: Sys, e: Event)
    requires Captured(s) && |s.ring| <= MAX_PROCESSES + 1 && Enabled(s, e) && Quiet(e)
    ensures var s' := Apply(s, e);
      && Captured(s') && |s'.ring| == |s.ring| && s'.ring[0].pid == s.ring[0].pid
  {
    var s' := Apply(s, e);
    match e
    case TickEvent(esp) =>
      if s.running {
        if Expires(s) {
          CaptureExact(s);
        }
        TickStay(s, esp);
        forall i | 1 <= i < |s'.ring| ensures Skipped(s'.ring[i]) {
          assert s'.ring[i] == s'.ring[1..][i - 1] == s.ring[1..][i - 1];
        }
      }
    case BlockOthers => BlockOthersCaptures(s);
    case _ =>
  }

  lemma CapturedActive(s: Sys)
    requires Captured(s)
    ensures ActiveSet(s.ring) == {0}
  {
  }

  /** After process_block_others in a ring of at most 17, no sequence of ticks takes the processor
      away until some process is created or unblocked, and exactly one process counts as active. */
  lemma {:induction false} CpuCapture(s: Sys, es: seq<Event>)
    requires Captured(s) && |s.ring| <= 17 && EnabledRun(s, es)
    requires forall e :: e in es ==> Quiet(e)
    ensures Captured(Run(s, es)) && Run(s, es).ring[0].pid == s.ring[0].pid
    ensures |ActiveSet(Run(s, es).ring)| == 1
    decreases |es|
  {
    CapturedActive(s);
    if es != [] {
      assert es[0] in es;
      QuietStep(s, es[0]);
      CpuCapture(Apply(s, es[0]), es[1..]);
    }
  }
}
