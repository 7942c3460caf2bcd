/** Tick accounting in every reachable state. */
module SchedAccount {
  import opened Arith
  import opened Bytes
  import opened Sched
  import opened SchedWait

  // ---------- Accounting ----------

  function SumTotals(ring: seq<Pcb>): nat {
    if ring == [] then 0 else ring[0].total + SumTotals(ring[1..])
  }

  lemma {:induction false} SumTotalsConcat(a: seq<Pcb>, b: seq<Pcb>)
    ensures SumTotals(a + b) == SumTotals(a) + SumTotals(b)
  {
    if a == [] {
      assert a + b == b;
    } else {
      assert (a + b)[1..] == a[1..] + b;
      SumTotalsConcat(a[1..], b);
    }
  }

  lemma {:induction false} SumTotalsSame(a: seq<Pcb>, b: seq<Pcb>)
    requires |a| == |b| && forall i :: 0 <= i < |a| ==> a[i].total == b[i].total
    ensures SumTotals(a) == SumTotals(b)
  {
    if a != [] {
      SumTotalsSame(a[1..], b[1..]);
    }
  }

  lemma {:induction false} SumTotalsBounds(ring: seq<Pcb>, i: nat)
    requires i < |ring|
    ensures ring[i].total <= SumTotals(ring)
  {
    if i > 0 {
      SumTotalsBounds(ring[1..], i - 1);
    }
  }

  /** A process has been charged whole turns, except the current one, which has also been charged
      the ticks of its unfinished turn. */
  ghost predicate WholeTurns(p: Pcb, unfinished: nat) {
    p.quantum >= 1 && unfinished < p.quantum && p.total % p.quantum == unfinished
  }

  /** The books after `delivered` ticks have reached a running scheduler. */
  ghost predicate Accounts(s: Sys, delivered: nat) {
    && (s.ring == [] ==> s.tick == 0 && delivered == 0)
    && (s.ring != [] ==> WholeTurns(s.ring[0], s.tick))
    && (forall i :: 1 <= i < |s.ring| ==> WholeTurns(s.ring[i], 0))
    && SumTotals(s.ring) == delivered
  }

  predicate Delivers(s: Sys, e: Event) {
    e.TickEvent? && s.running && s.ring != []
  }

  lemma ChargedSum(ring: seq<Pcb>, ring': seq<Pcb>, p: Pcb)
    requires ring != [] && ring' == [p] + ring[1..]
    ensures SumTotals(ring') == SumTotals(ring) - ring[0].total + p.total
  {
    assert ring'[1..] == ring[1..];
  }

  lemma RotateSum(ring: seq<Pcb>, k: nat)
    requires k <= |ring|
    ensures SumTotals(Rotate(ring, k)) == SumTotals(ring)
  {
    hide SumTotals;
    assert ring == ring[..k] + ring[k..];
    SumTotalsSwap(ring[..k], ring[k..]);
  }

  lemma SumTotalsSwap(a: seq<Pcb>, b: seq<Pcb>)
    ensures SumTotals(a + b) == SumTotals(b + a)
  {
    hide SumTotals;
    SumTotalsConcat(a, b);
    SumTotalsConcat(b, a);
  }

  lemma SwitchedRing(s: Sys, esp: uint32) returns (ring: seq<Pcb>)
    requires Switches(s)
    ensures |ring| == |s.ring| && Tick(s, esp).0.ring == Rotate(ring, Pick(s.ring))
    ensures forall i :: 0 <= i < |ring| ==>
      ring[i].total == if i == 0 then Wrap32(s.ring[0].total + 1) else s.ring[i].total
  {
    PickSaved(s.ring, esp);
    var k := Pick(s.ring);
    var saved := Charged(s.ring)[0 := Charged(s.ring)[0].(esp := esp)];
    ring := saved[0 := saved[0].(state := Ready)][k := saved[k].(state := Running)];
  }

  lemma TickRing(s: Sys, esp: uint32)
    requires s.running && s.ring != []
    ensures SumTotals(Tick(s, esp).0.ring) == SumTotals(s.ring) - s.ring[0].total + Wrap32(s.ring[0].total + 1)
  {
    hide Tick, Rotate;
    var s' := Tick(s, esp).0;
    var p := s.ring[0].(total := Wrap32(s.ring[0].total + 1));
    var charged := [p] + s.ring[1..];
    ChargedSum(s.ring, charged, p);
    if Switches(s) {
      var ring := SwitchedRing(s, esp);
      RotateSum(ring, Pick(s.ring));
      SumTotalsSame(ring, charged);
    } else {
      TickStay(s, esp);
      assert s'.ring == [s'.ring[0]] + s'.ring[1..];
      SumTotalsSame(s'.ring, charged);
    }
  }

  lemma ChargedTurn(p: Pcb, tick: uint32)
    requires WholeTurns(p, tick) && p.total + 1 < 0x1_0000_0000
    ensures WholeTurns(p.(total := Wrap32(p.total + 1)), if Wrap32(tick + 1) >= p.quantum then 0 else Wrap32(tick + 1))
  {
    NextMod(p.total, p.quantum);
  }

  lemma SameTurns(p: Pcb, p': Pcb, unfinished: nat)
    requires p.total == p'.total && p.quantum == p'.quantum && WholeTurns(p, unfinished)
    ensures WholeTurns(p', unfinished)
  {
  }

  lemma TickAccounts(s: Sys, esp: uint32, delivered: nat)
    requires Accounts(s, delivered) && s.running && s.ring != [] && delivered + 1 < 0x1_0000_0000
    ensures Accounts(Tick(s, esp).0, delivered + 1)
  {
    hide Tick, WholeTurns, SumTotals, Switches, Expires;
    TickRing(s, esp);
    SumTotalsBounds(s.ring, 0);
    if Switches(s) {
      SwitchTurns(s, esp);
    } else {
      StayTurns(s, esp);
    }
  }

  lemma SwitchTurns(s: Sys, esp: uint32)
    requires Switches(s) && WholeTurns(s.ring[0], s.tick) && s.ring[0].total + 1 < 0x1_0000_0000
    requires forall i :: 1 <= i < |s.ring| ==> WholeTurns(s.ring[i], 0)
    ensures var s' := Tick(s, esp).0;
      |s'.ring| == |s.ring| && s'.tick == 0 && forall x :: 0 <= x < |s.ring| ==> WholeTurns(s'.ring[x], 0)
  {
    hide Tick, WholeTurns, Pick, Source;
    var s' := Tick(s, esp).0;
    ChargedTurn(s.ring[0], s.tick);
    var p := s.ring[0].(total := Wrap32(s.ring[0].total + 1));
    TickSwitch(s, esp, 0);
    forall x | 0 <= x < |s.ring| ensures WholeTurns(s'.ring[x], 0) {
      TickSwitch(s, esp, x);
      var i := Source(Pick(s.ring), |s.ring|, x);
      if i == 0 {
        SameTurns(p, s'.ring[x], 0);
      } else {
        SameTurns(s.ring[i], s'.ring[x], 0);
      }
    }
  }

  lemma StayTurns(s: Sys, esp: uint32)
    requires s.running && s.ring != [] && !Switches(s)
    requires WholeTurns(s.ring[0], s.tick) && s.ring[0].total + 1 < 0x1_0000_0000
    requires forall i :: 1 <= i < |s.ring| ==> WholeTurns(s.ring[i], 0)
    ensures var s' := Tick(s, esp).0;
      && |s'.ring| == |s.ring| && WholeTurns(s'.ring[0], s'.tick)
      && forall x :: 1 <= x < |s.ring| ==> WholeTurns(s'.ring[x], 0)
  {
    hide Tick, WholeTurns, Pick;
    var s' := Tick(s, esp).0;
    ChargedTurn(s.ring[0], s.tick);
    var p := s.ring[0].(total := Wrap32(s.ring[0].total + 1));
    TickStay(s, esp);
    SameTurns(p, s'.ring[0], s'.tick);
    forall x | 1 <= x < |s.ring| ensures WholeTurns(s'.ring[x], 0) {
      assert s'.ring[x] == s'.ring[1..][x - 1] == s.ring[1..][x - 1];
    }
  }

  lemma CreateAccounts(s: Sys, p: Pcb, delivered: nat)
    requires Accounts(s, delivered) && p.total == 0 && p.quantum >= 1
    ensures Accounts(s.(ring := s.ring + [p], nextPid := Wrap32(s.nextPid + 1)), delivered)
  {
    hide SumTotals;
    SumTotalsConcat(s.ring, [p]);
    assert SumTotals([p]) == 0 by { SumTotalsOne(p); }
  }

  lemma SumTotalsOne(p: Pcb)
    ensures SumTotals([p]) == p.total
  {
    assert SumTotals([p][1..]) == 0;
  }

  /** Changes of state leave the books alone. */
  lemma SameBooks(s: Sys, s': Sys, delivered: nat)
    requires Accounts(s, delivered) && |s'.ring| == |s.ring| && s'.tick == s.tick
    requires forall i :: 0 <= i < |s.ring| ==> s'.ring[i].total == s.ring[i].total && s'.ring[i].quantum == s.ring[i].quantum
    ensures Accounts(s', delivered)
  {
    hide SumTotals;
    SumTotalsSame(s.ring, s'.ring);
  }

  lemma StepAccounts(s: Sys, e: Event, delivered: nat)
    requires Accounts(s, delivered) && Enabled(s, e) && Lawful(e)
    requires Delivers(s, e) ==> delivered + 1 < 0x1_0000_0000
    ensures Accounts(Apply(s, e), if Delivers(s, e) then delivered + 1 else delivered)
  {
    hide Tick, Accounts;
    match e
    case TickEvent(esp) =>
      if Delivers(s, e) {
        TickAccounts(s, esp, delivered);
      } else {
        TickIdle(s, esp);
      }
    case Create(addr, priority, esp, stack) =>
      QuantumPositive(priority);
      CreateAccounts(s, NewPcb(addr, s.nextPid, priority, esp, stack), delivered);
    case _ =>
      SameBooks(s, Apply(s, e), delivered);
  }

  function Delivered(s: Sys, es: seq<Event>): nat
    requires EnabledRun(s, es)
    decreases |es|
  {
    if es == [] then 0
    else (if Delivers(s, es[0]) then 1 else 0) + Delivered(Apply(s, es[0]), es[1..])
  }

  lemma {:induction false} RunAccounts(s: Sys, es: seq<Event>, before: nat)
    requires Accounts(s, before) && EnabledRun(s, es) && (forall e :: e in es ==> Lawful(e))
    requires before + Delivered(s, es) < 0x1_0000_0000
    ensures Accounts(Run(s, es), before + Delivered(s, es))
    decreases |es|
  {
    hide Apply;
    if es != [] {
      assert es[0] in es;
      StepAccounts(s, es[0], before);
      RunAccounts(Apply(s, es[0]), es[1..], before + if Delivers(s, es[0]) then 1 else 0);
    }
  }

  /** Tick accounting. In every state reachable from boot by fewer than 2^32 ticks, tick_count is
      below the current quantum and is what the current process has been charged beyond whole turns,
      every other process has been charged whole turns only, and the charges add up to the ticks
      delivered. */
  lemma ReachableAccounts(es: seq<Event>)
    requires EnabledRun(BOOT, es) && (forall e :: e in es ==> Lawful(e)) && Delivered(BOOT, es) < 0x1_0000_0000
    ensures Accounts(Run(BOOT, es), Delivered(BOOT, es))
  {
    RunAccounts(BOOT, es, 0);
  }
}
