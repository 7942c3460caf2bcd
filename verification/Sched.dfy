/** The process ring and the scheduler as values.

    The circular list is a sequence that starts at the current process: ring[0] is current,
    creation appends, and a switch to the process k places ahead rotates by k. */
module Sched {
  import opened Arith
  import opened Bytes

  datatype State = Ready | Running | Blocked | Dead
  /** process_t; addr is the address of the block that holds it. */
  datatype Pcb = Pcb(addr: uint32, pid: uint32, state: State, priority: uint32, esp: uint32, stack: uint32,
                     total: uint32, quantum: uint32)
  datatype Sys = Sys(ring: seq<Pcb>, tick: uint32, running: bool, nextPid: uint32)

  const MAX_PROCESSES := 16
  const BOOT: Sys := Sys([], 0, false, 1)

  predicate Skipped(p: Pcb) {
    p.state.Dead? || p.state.Blocked?
  }

  predicate Active(p: Pcb) {
    p.state.Ready? || p.state.Running?
  }

  function Rotate<T>(r: seq<T>, k: nat): (q: seq<T>)
    requires k <= |r|
    ensures |q| == |r|
  {
    r[k..] + r[..k]
  }

  /** Position of the process after the one at i. */
  function After(n: nat, i: nat): (r: nat)
    requires i < n
    ensures r < n
  {
    if i + 1 < n then i + 1 else 0
  }

  /** The skip scan of lines 47-51 of scheduler.c from position i, having passed a processes. */
  function Scan(ring: seq<Pcb>, i: nat, a: nat): (k: nat)
    requires i < |ring| && a <= MAX_PROCESSES
    ensures k < |ring|
    decreases MAX_PROCESSES - a
  {
    if a < MAX_PROCESSES && Skipped(ring[i]) then Scan(ring, After(|ring|, i), a + 1) else i
  }

  /** Position of the process the scheduler stops at. */
  function Pick(ring: seq<Pcb>): (k: nat)
    requires ring != []
    ensures k < |ring|
  {
    Scan(ring, After(|ring|, 0), 0)
  }

  /** The ring after a tick has been charged to the current process. */
  function Charged(ring: seq<Pcb>): seq<Pcb>
    requires ring != []
  {
    ring[0 := ring[0].(total := Wrap32(ring[0].total + 1))]
  }

  predicate Expires(s: Sys)
    requires s.ring != []
  {
    Wrap32(s.tick + 1) >= s.ring[0].quantum
  }

  /** The current process gives way to another on the next tick. */
  predicate Switches(s: Sys) {
    && s.running && s.ring != [] && Expires(s)
    && Pick(s.ring) != 0 && !s.ring[Pick(s.ring)].state.Dead?
  }

  /** scheduler_tick: the new state and the stack pointer to continue with. */
  function Tick(s: Sys, esp: uint32): (Sys, uint32) {
    if !s.running || s.ring == [] then (s, esp)
    else
      var charged := Charged(s.ring);
      if !Expires(s) then (s.(ring := charged, tick := Wrap32(s.tick + 1)), esp)
      else
        var saved := charged[0 := charged[0].(esp := esp)];
        var k := Pick(saved);
        if k == 0 || saved[k].state.Dead? then (s.(ring := saved, tick := 0), esp)
        else
          var switched := saved[0 := saved[0].(state := Ready)][k := saved[k].(state := Running)];
          (s.(ring := Rotate(switched, k), tick := 0), saved[k].esp)
  }

  function SetState(ring: seq<Pcb>, i: nat, st: State): seq<Pcb>
    requires i < |ring|
  {
    ring[i := ring[i].(state := st)]
  }

  function BlockAll(ring: seq<Pcb>): (r: seq<Pcb>)
    ensures |r| == |ring|
    ensures forall i :: 0 <= i < |ring| ==>
      r[i] == if ring[i].state.Dead? then ring[i] else ring[i].(state := Blocked)
  {
    seq(|ring|, i requires 0 <= i < |ring| =>
      if ring[i].state.Dead? then ring[i] else ring[i].(state := Blocked))
  }

  function Quantum(priority: uint32): uint32 {
    Wrap32(priority * 5)
  }

  function NewPcb(addr: uint32, pid: uint32, priority: uint32, esp: uint32, stack: uint32): Pcb {
    Pcb(addr, pid, Ready, priority, esp, stack, 0, Quantum(priority))
  }

  /** Everything that can happen to the ring. Processes are named by their position. */
  datatype Event =
    | TickEvent(esp: uint32)
    | Create(addr: uint32, priority: uint32, esp: uint32, stack: uint32)
    | Start
    | Exit
    | Block(i: nat)
    | Unblock(i: nat)
    | BlockOthers

  predicate Enabled(s: Sys, e: Event) {
    match e
    case Block(i) => i < |s.ring|
    case Unblock(i) => i < |s.ring|
    case _ => true
  }

  function Apply(s: Sys, e: Event): Sys
    requires Enabled(s, e)
  {
    match e
    case TickEvent(esp) => Tick(s, esp).0
    case Create(addr, priority, esp, stack) =>
      s.(ring := s.ring + [NewPcb(addr, s.nextPid, priority, esp, stack)], nextPid := Wrap32(s.nextPid + 1))
    case Start => if s.ring == [] then s else s.(ring := SetState(s.ring, 0, Running), running := true)
    case Exit => if s.ring == [] then s else s.(ring := SetState(s.ring, 0, Dead))
    case Block(i) => s.(ring := SetState(s.ring, i, Blocked))
    case Unblock(i) => s.(ring := SetState(s.ring, i, Ready))
    case BlockOthers => if s.ring == [] then s else s.(ring := [s.ring[0]] + BlockAll(s.ring[1..]))
  }

  predicate EnabledRun(s: Sys, es: seq<Event>)
    decreases |es|
  {
    es == [] || (Enabled(s, es[0]) && EnabledRun(Apply(s, es[0]), es[1..]))
  }

  function Run(s: Sys, es: seq<Event>): Sys
    requires EnabledRun(s, es)
    decreases |es|
  {
    if es == [] then s else Run(Apply(s, es[0]), es[1..])
  }

  // ---------- The scan ----------

  /** The outcome of the scan depends on the states alone. */
  lemma {:induction false} ScanStates(r: seq<Pcb>, q: seq<Pcb>, i: nat, a: nat)
    requires |r| == |q| && i < |r| && a <= MAX_PROCESSES
    requires forall j :: 0 <= j < |r| ==> r[j].state == q[j].state
    ensures Scan(r, i, a) == Scan(q, i, a)
    decreases MAX_PROCESSES - a
  {
    if a < MAX_PROCESSES {
      ScanStates(r, q, After(|r|, i), a + 1);
    }
  }

  lemma PickSaved(ring: seq<Pcb>, esp: uint32)
    requires ring != []
    ensures Pick(Charged(ring)[0 := Charged(ring)[0].(esp := esp)]) == Pick(ring)
  {
    ScanStates(Charged(ring)[0 := Charged(ring)[0].(esp := esp)], ring, After(|ring|, 0), 0);
  }

  lemma {:induction false} ScanNoFurther(ring: seq<Pcb>, i: nat, a: nat, d: nat)
    requires i <= d < |ring| && a <= MAX_PROCESSES && d - i <= MAX_PROCESSES - a && !Skipped(ring[d])
    ensures i <= Scan(ring, i, a) <= d && !Skipped(ring[Scan(ring, i, a)])
    decreases MAX_PROCESSES - a
  {
    if Skipped(ring[i]) {
      ScanNoFurther(ring, i + 1, a + 1, d);
    }
  }

  /** The scan never passes a process that can run: it stops no later than the first such process,
      if that is at most 17 places from the current one. */
  lemma PickNoFurther(ring: seq<Pcb>, d: nat)
    requires 1 <= d < |ring| && d <= MAX_PROCESSES + 1 && !Skipped(ring[d])
    ensures 1 <= Pick(ring) <= d && !Skipped(ring[Pick(ring)])
  {
    ScanNoFurther(ring, 1, 0, d);
  }

  /** Where the process at position x was before the ring was rotated by k. */
  function Source(k: nat, n: nat, x: nat): (i: nat)
    requires k < n && x < n
    ensures i < n
  {
    if k + x < n then k + x else k + x - n
  }

  /** What a switch makes of the process at position i. */
  function AfterSwitch(s: Sys, esp: uint32, i: nat): Pcb
    requires i < |s.ring|
  {
    if i == Pick(s.ring) then s.ring[i].(state := Running)
    else if i == 0 then s.ring[0].(state := Ready, esp := esp, total := Wrap32(s.ring[0].total + 1))
    else s.ring[i]
  }

  /** What a switching tick does, position by position. */
  lemma TickSwitch(s: Sys, esp: uint32, x: nat)
    requires Switches(s) && x < |s.ring|
    ensures var (s', r), k, n := Tick(s, esp), Pick(s.ring), |s.ring|;
      && |s'.ring| == n && s'.tick == 0 && s'.running && s'.nextPid == s.nextPid
      && r == s.ring[k].esp
      && s'.ring[x] == AfterSwitch(s, esp, Source(k, n, x))
  {
    PickSaved(s.ring, esp);
  }

  lemma TickStay(s: Sys, esp: uint32)
    requires s.ring != [] && s.running && !Switches(s)
    ensures var (s', r) := Tick(s, esp);
      && r == esp && |s'.ring| == |s.ring| && s'.running && s'.nextPid == s.nextPid
      && s'.tick == (if Expires(s) then 0 else Wrap32(s.tick + 1))
      && s'.ring[0] == s.ring[0].(total := Wrap32(s.ring[0].total + 1),
                                  esp := if Expires(s) then esp else s.ring[0].esp)
      && s'.ring[1..] == s.ring[1..]
  {
    PickSaved(s.ring, esp);
  }

  lemma TickIdle(s: Sys, esp: uint32)
    requires !s.running || s.ring == []
    ensures Tick(s, esp) == (s, esp)
  {
  }

  // ---------- Ring safety ----------

  /** No process but the current one is RUNNING. */
  ghost predicate OneRunning(s: Sys) {
    forall i :: 1 <= i < |s.ring| ==> !s.ring[i].state.Running?
  }

  lemma StepOneRunning(s: Sys, e: Event)
    requires OneRunning(s) && Enabled(s, e)
    ensures OneRunning(Apply(s, e))
  {
    match e
    case TickEvent(esp) =>
      if Switches(s) {
        forall x | 1 <= x < |s.ring| ensures !Tick(s, esp).0.ring[x].state.Running? {
          TickSwitch(s, esp, x);
        }
      } else if s.ring != [] && s.running {
        TickStay(s, esp);
        var s' := Tick(s, esp).0;
        forall x | 1 <= x < |s.ring| ensures !s'.ring[x].state.Running? {
          assert s'.ring[x] == s'.ring[1..][x - 1] == s.ring[1..][x - 1];
        }
      }
    case _ =>
  }

  lemma {:induction false} RunOneRunning(s: Sys, es: seq<Event>)
    requires OneRunning(s) && EnabledRun(s, es)
    ensures OneRunning(Run(s, es))
    decreases |es|
  {
    if es != [] {
      StepOneRunning(s, es[0]);
      RunOneRunning(Apply(s, es[0]), es[1..]);
    }
  }

  /** The a-th process after the next one, counting round the ring. */
  function Place(n: nat, a: nat): (i: nat)
    requires n > 0
    ensures i < n
  {
    (a + 1) % n
  }

  lemma PlaceAt(n: nat, a: nat)
    requires n > 0
    ensures Place(n, a) == (a + 1) % n
  {
  }

  lemma PlaceNext(n: nat, a: nat)
    requires n > 0
    ensures Place(n, 0) == After(n, 0) && Place(n, a + 1) == After(n, Place(n, a))
  {
    NextMod(a + 1, n);
  }

  /** The first b places are all taken by processes the scan skips. */
  predicate AllSkipped(ring: seq<Pcb>, b: nat) {
    ring != [] ==> forall a :: 0 <= a < b ==> Skipped(ring[Place(|ring|, a)])
  }

  lemma {:induction false} ScanPlaces(ring: seq<Pcb>, a: nat, b: nat)
    requires ring != [] && a <= b <= MAX_PROCESSES
    requires forall c :: a <= c < b ==> Skipped(ring[Place(|ring|, c)])
    requires b < MAX_PROCESSES ==> !Skipped(ring[Place(|ring|, b)])
    ensures Scan(ring, Place(|ring|, a), a) == Place(|ring|, b)
    decreases b - a
  {
    hide Place;
    if a < b {
      PlaceNext(|ring|, a);
      ScanPlaces(ring, a + 1, b);
    }
  }

  /** Whom the scan stops at: the first of 16 places that holds a process it need not skip, or
      whoever is at the 17th if there is none. */
  lemma PickExact(ring: seq<Pcb>, b: nat)
    requires ring != [] && b <= MAX_PROCESSES && AllSkipped(ring, b)
    requires b < MAX_PROCESSES ==> !Skipped(ring[Place(|ring|, b)])
    ensures Pick(ring) == Place(|ring|, b)
  {
    PlaceNext(|ring|, 0);
    ScanPlaces(ring, 0, b);
  }

  lemma {:induction false} FirstOpen(ring: seq<Pcb>, b: nat) returns (c: nat)
    requires ring != []
    ensures c <= b && AllSkipped(ring, c) && (c < b ==> !Skipped(ring[Place(|ring|, c)]))
    decreases b
  {
    if b == 0 {
      c := 0;
    } else {
      c := FirstOpen(ring, b - 1);
      if c == b - 1 && Skipped(ring[Place(|ring|, c)]) {
        c := b;
      }
    }
  }

  /** When a switch goes to a BLOCKED process: exactly when the scan gives up on it after 16 others,
      whoever is current and however small the ring. */
  lemma DispatchExact(s: Sys)
    requires s.running && s.ring != [] && Expires(s)
    ensures var n := |s.ring|; var k := 17 % n;
      Switches(s) && s.ring[Pick(s.ring)].state.Blocked? <==>
      AllSkipped(s.ring, 16) && k != 0 && s.ring[k].state.Blocked?
  {
    hide Pick, Place;
    PlaceAt(|s.ring|, MAX_PROCESSES);
    var b := FirstOpen(s.ring, MAX_PROCESSES);
    PickExact(s.ring, b);
  }

  /** A switch never goes to a DEAD process, and goes to a BLOCKED one only when nobody among the
      17 processes that follow the current one can run. */
  lemma DispatchSafety(s: Sys)
    requires Switches(s)
    ensures !s.ring[Pick(s.ring)].state.Dead?
    ensures s.ring[Pick(s.ring)].state.Blocked? ==>
      forall d :: 1 <= d < |s.ring| && d <= MAX_PROCESSES + 1 ==> Skipped(s.ring[d])
  {
    forall d | 1 <= d < |s.ring| && d <= MAX_PROCESSES + 1
      ensures s.ring[Pick(s.ring)].state.Blocked? ==> Skipped(s.ring[d])
    {
      if !Skipped(s.ring[d]) {
        PickNoFurther(s.ring, d);
      }
    }
  }

  // ---------- DEAD and BLOCKED do not last ----------

  /** No process but the current one is DEAD. */
  ghost predicate OnlyCurrentDead(s: Sys) {
    forall i :: 1 <= i < |s.ring| ==> !s.ring[i].state.Dead?
  }

  lemma StepOnlyCurrentDead(s: Sys, e: Event)
    requires OnlyCurrentDead(s) && Enabled(s, e)
    ensures OnlyCurrentDead(Apply(s, e))
  {
    hide Tick;
    match e
    case TickEvent(esp) =>
      if Switches(s) {
        TickSwitch(s, esp, 0);
        forall x | 1 <= x < |s.ring| ensures !Tick(s, esp).0.ring[x].state.Dead? {
          TickSwitch(s, esp, x);
        }
      } else if s.ring != [] && s.running {
        TickStay(s, esp);
        var s' := Tick(s, esp).0;
        forall x | 1 <= x < |s.ring| ensures !s'.ring[x].state.Dead? {
          assert s'.ring[x] == s'.ring[1..][x - 1] == s.ring[1..][x - 1];
        }
      } else {
        TickIdle(s, esp);
      }
    case _ =>
  }

  lemma {:induction false} RunOnlyCurrentDead(s: Sys, es: seq<Event>)
    requires OnlyCurrentDead(s) && EnabledRun(s, es)
    ensures OnlyCurrentDead(Run(s, es))
    decreases |es|
  {
    hide Apply, OnlyCurrentDead;
    if es != [] {
      StepOnlyCurrentDead(s, es[0]);
      RunOnlyCurrentDead(Apply(s, es[0]), es[1..]);
    }
  }

  /** From boot, in every state reached, no process but the current one is DEAD: process_exit lasts no
      longer than until the next switch. */
  lemma DeadIsCurrent(es: seq<Event>)
    requires EnabledRun(BOOT, es)
    ensures OnlyCurrentDead(Run(BOOT, es))
  {
    hide Run;
    RunOnlyCurrentDead(BOOT, es);
  }

  /** With nobody else dead the scan never passes a process that can run, however far away: if it gives
      up first, it is at a process before that one. */
  lemma PickBefore(ring: seq<Pcb>, d: nat)
    requires 1 <= d < |ring| && !Skipped(ring[d])
    ensures 1 <= Pick(ring) <= d
  {
    if d <= MAX_PROCESSES + 1 {
      PickNoFurther(ring, d);
    } else {
      hide Pick, Place, AllSkipped;
      var b := FirstOpen(ring, MAX_PROCESSES);
      PickExact(ring, b);
      PlaceNear(|ring|, b);
    }
  }

  lemma PlaceNear(n: nat, a: nat)
    requires a + 1 < n
    ensures Place(n, a) == a + 1
  {
  }

  /** Where the process at position i is after a tick. */
  function Moved(s: Sys, i: nat): (j: nat)
    requires i < |s.ring|
    ensures j < |s.ring|
  {
    if !Switches(s) then i
    else if i >= Pick(s.ring) then i - Pick(s.ring) else i + |s.ring| - Pick(s.ring)
  }

  /** A DEAD process is still DEAD after a tick unless it is the current one and gives way to
      another, in which case it becomes READY again. */
  lemma DeadAfterTick(s: Sys, esp: uint32, i: nat)
    requires i < |s.ring| && s.ring[i].state.Dead?
    ensures var p := Tick(s, esp).0.ring[Moved(s, i)];
      && p.pid == s.ring[i].pid
      && (p.state.Dead? <==> !(i == 0 && Switches(s)))
      && (!p.state.Dead? ==> p.state.Ready?)
  {
    hide Tick, Pick;
    if Switches(s) {
      TickSwitch(s, esp, Moved(s, i));
    } else if s.running {
      TickStay(s, esp);
      var s' := Tick(s, esp).0;
      if i > 0 {
        assert s'.ring[i] == s'.ring[1..][i - 1] == s.ring[1..][i - 1];
      }
    } else {
      TickIdle(s, esp);
    }
  }

  /** A BLOCKED process is still BLOCKED after a tick unless it takes part in a switch: the one that
      gives way becomes READY, the one the scan gave up at RUNNING. */
  lemma BlockedAfterTick(s: Sys, esp: uint32, i: nat)
    requires i < |s.ring| && s.ring[i].state.Blocked?
    ensures var p := Tick(s, esp).0.ring[Moved(s, i)];
      && p.pid == s.ring[i].pid
      && (p.state.Blocked? <==> !(Switches(s) && (i == 0 || i == Pick(s.ring))))
      && (Switches(s) && i == 0 ==> p.state.Ready?)
      && (Switches(s) && i == Pick(s.ring) ==> p.state.Running?)
  {
    hide Tick, Pick;
    if Switches(s) {
      TickSwitch(s, esp, Moved(s, i));
    } else if s.running {
      TickStay(s, esp);
      var s' := Tick(s, esp).0;
      if i > 0 {
        assert s'.ring[i] == s'.ring[1..][i - 1] == s.ring[1..][i - 1];
      }
    } else {
      TickIdle(s, esp);
    }
  }

  /** After process_block_others and process_exit by the same process nobody can run. At the end of
      its quantum the scan passes 16 places, round a small ring more than once, and if it has not
      come back to the dead process it runs whoever it has got to, blocked though that is, while the
      dead process becomes READY. */
  lemma ExitAfterBlockOthers(s: Sys, esp: uint32)
    requires s.running && s.ring != [] && Expires(s)
    ensures var s2, n := Apply(Apply(s, BlockOthers), Exit), |s.ring|;
      var k, s' := Place(n, MAX_PROCESSES), Tick(s2, esp).0;
      && (Switches(s2) <==> k != 0 && !s.ring[k].state.Dead?)
      && (Switches(s2) ==>
            && |s'.ring| == n
            && s'.ring[0].pid == s.ring[k].pid && s2.ring[k].state.Blocked? && s'.ring[0].state.Running?
            && s'.ring[n - k].pid == s.ring[0].pid && s2.ring[0].state.Dead? && s'.ring[n - k].state.Ready?)
  {
    hide Pick, Place, Tick;
    var s2 := Apply(Apply(s, BlockOthers), Exit);
    assert forall i :: 1 <= i < |s.ring| ==> s2.ring[i] == BlockAll(s.ring[1..])[i - 1];
    PickExact(s2.ring, MAX_PROCESSES);
    if Switches(s2) {
      TickSwitch(s2, esp, 0);
      TickSwitch(s2, esp, |s.ring| - Pick(s2.ring));
    }
  }

  /** In every reachable state that switch happens exactly when 17 places do not lead back home. */
  lemma ExitSwitches(s: Sys)
    requires OnlyCurrentDead(s) && s.running && s.ring != [] && Expires(s)
    ensures Switches(Apply(Apply(s, BlockOthers), Exit)) <==> 17 % |s.ring| != 0
  {
    hide Pick;
    ExitAfterBlockOthers(s, 0);
  }

  /** The state process_exit leaves when another process is ready, and what 20 ticks make of it. */
  lemma DeadRevives()
    ensures var a, b := Pcb(0x20000D, 1, Dead, 4, 0, 0, 19, 20), Pcb(0x204067, 2, Ready, 2, 0, 0, 0, 10);
      var s := Sys([a, b], 19, true, 3);
      Tick(s, 0).0.ring == [b.(state := Running), a.(state := Ready, total := 20)]
  {
    var a, b := Pcb(0x20000D, 1, Dead, 4, 0, 0, 19, 20), Pcb(0x204067, 2, Ready, 2, 0, 0, 0, 10);
    var s := Sys([a, b], 19, true, 3);
    PickNoFurther(s.ring, 1);
    TickSwitch(s, 0, 0);
    TickSwitch(s, 0, 1);
  }

  // ---------- Counting ----------

  function Alive(ring: seq<Pcb>): set<nat> {
    set i: nat | i < |ring| && !ring[i].state.Dead?
  }

  function ActiveSet(ring: seq<Pcb>): set<nat> {
    set i: nat | i < |ring| && Active(ring[i])
  }
}
