/** Weighted fairness: while every process is active the ring goes round in whole rounds, and each
    round gives every process exactly its quantum. */
module SchedFair {
  import opened Arith
  import opened Bytes
  import opened Sched
  import opened SchedWait

  /** Just after a switch, with every process active. */
  ghost predicate AllActive(s: Sys) {
    && s.running && s.ring != [] && s.tick == 0
    && s.ring[0].state.Running?
    && (forall i :: 1 <= i < |s.ring| ==> s.ring[i].state.Ready?)
    && (forall i :: 0 <= i < |s.ring| ==> s.ring[i].quantum >= 1)
  }

  /** A moment of the rotation that starts with ring: rounds completed, whose turn it is, and the
      ticks used of that turn. */
  datatype Moment = Moment(rounds: nat, turn: nat, used: nat)

  ghost predicate Proper(ring: seq<Pcb>, w: Moment) {
    w.turn < |ring| && w.used < ring[w.turn].quantum
  }

  ghost function Next(ring: seq<Pcb>, w: Moment): (w': Moment)
    requires Proper(ring, w)
  {
    if w.used + 1 < ring[w.turn].quantum then w.(used := w.used + 1)
    else if w.turn + 1 < |ring| then Moment(w.rounds, w.turn + 1, 0)
    else Moment(w.rounds + 1, 0, 0)
  }

  /** Turns the process that started at position i has completed. */
  function Turns(w: Moment, i: nat): nat {
    w.rounds + if i < w.turn then 1 else 0
  }

  function Charge(ring: seq<Pcb>, w: Moment, i: nat): nat
    requires i < |ring|
  {
    ring[i].total + Turns(w, i) * ring[i].quantum + if i == w.turn then w.used else 0
  }

  /** p is the process that started at position i, as it should be at moment w. */
  ghost predicate Due(ring: seq<Pcb>, w: Moment, i: nat, p: Pcb)
    requires i < |ring|
  {
    && p.pid == ring[i].pid && p.quantum == ring[i].quantum
    && p.state == (if i == w.turn then Running else Ready)
    && p.total == Charge(ring, w, i)
  }

  /** s is the system that started as ring, at moment w. */
  ghost predicate At(ring: seq<Pcb>, s: Sys, w: Moment) {
    && Proper(ring, w) && s.running && |s.ring| == |ring| && s.tick == w.used
    && forall x :: 0 <= x < |ring| ==> Due(ring, w, Source(w.turn, |ring|, x), s.ring[x])
  }

  /** No counter reaches 2^32 before one more round is complete. */
  ghost predicate Roomy(ring: seq<Pcb>, rounds: nat) {
    forall i :: 0 <= i < |ring| ==> ring[i].quantum >= 1 && ring[i].total + (rounds + 1) * ring[i].quantum < 0x1_0000_0000
  }

  lemma NextProper(ring: seq<Pcb>, w: Moment)
    requires Proper(ring, w) && forall i :: 0 <= i < |ring| ==> ring[i].quantum >= 1
    ensures Proper(ring, Next(ring, w))
  {
  }

  lemma ChargeRoom(ring: seq<Pcb>, w: Moment)
    requires Proper(ring, w) && Roomy(ring, w.rounds)
    ensures Charge(ring, w, w.turn) + 1 < 0x1_0000_0000
  {
    var q := ring[w.turn].quantum;
    assert (w.rounds + 1) * q == w.rounds * q + q;
  }

  lemma TurnDone(ring: seq<Pcb>, w: Moment)
    requires Proper(ring, w) && w.used + 1 == ring[w.turn].quantum
    ensures Charge(ring, Next(ring, w), w.turn) == Charge(ring, w, w.turn) + 1 || |ring| == 1
    ensures |ring| == 1 ==> Charge(ring, Next(ring, w), 0) == Charge(ring, w, 0) + 1
    ensures forall i :: 0 <= i < |ring| && i != w.turn ==> Charge(ring, Next(ring, w), i) == Charge(ring, w, i)
  {
    var q := ring[w.turn].quantum;
    assert (w.rounds + 1) * q == w.rounds * q + q;
  }

  lemma PickNeighbour(ring: seq<Pcb>)
    requires ring != [] && forall i :: 0 <= i < |ring| ==> Active(ring[i])
    ensures Pick(ring) == if |ring| == 1 then 0 else 1
  {
  }

  lemma AllAreActive(ring: seq<Pcb>, s: Sys, w: Moment)
    requires At(ring, s, w)
    ensures forall x :: 0 <= x < |s.ring| ==> Active(s.ring[x])
  {
  }

  /** One tick moves the rotation to its next moment. */
  lemma FairTick(ring: seq<Pcb>, s: Sys, w: Moment, esp: uint32)
    requires At(ring, s, w) && Roomy(ring, w.rounds)
    ensures At(ring, Tick(s, esp).0, Next(ring, w))
  {
    hide Tick, Pick, Roomy, At;
    RoomyQuanta(ring, w.rounds);
    if Switches(s) {
      FairSwitch(ring, s, w, esp);
    } else {
      FairStay(ring, s, w, esp);
    }
  }

  lemma FairSwitch(ring: seq<Pcb>, s: Sys, w: Moment, esp: uint32)
    requires At(ring, s, w) && Roomy(ring, w.rounds) && Switches(s)
    requires forall i :: 0 <= i < |ring| ==> ring[i].quantum >= 1
    ensures At(ring, Tick(s, esp).0, Next(ring, w))
  {
    hide Tick, Pick, Charge, Roomy;
    var s', w', n := Tick(s, esp).0, Next(ring, w), |ring|;
    NextProper(ring, w);
    ChargeRoom(ring, w);
    AllAreActive(ring, s, w);
    PickNeighbour(s.ring);
    assert Due(ring, w, Source(w.turn, n, 0), s.ring[0]);
    TurnDone(ring, w);
    forall x | 0 <= x < n ensures x < |s'.ring| && Due(ring, w', Source(w'.turn, n, x), s'.ring[x]) {
      TickSwitch(s, esp, x);
      assert Due(ring, w, Source(w.turn, n, Source(1, n, x)), s.ring[Source(1, n, x)]);
    }
    TickSwitch(s, esp, 0);
  }

  lemma FairStay(ring: seq<Pcb>, s: Sys, w: Moment, esp: uint32)
    requires At(ring, s, w) && Roomy(ring, w.rounds) && !Switches(s)
    requires forall i :: 0 <= i < |ring| ==> ring[i].quantum >= 1
    ensures At(ring, Tick(s, esp).0, Next(ring, w))
  {
    hide Tick, Pick, Charge, Roomy;
    var s', w', n := Tick(s, esp).0, Next(ring, w), |ring|;
    NextProper(ring, w);
    ChargeRoom(ring, w);
    AllAreActive(ring, s, w);
    PickNeighbour(s.ring);
    assert Due(ring, w, Source(w.turn, n, 0), s.ring[0]);
    TickStay(s, esp);
    if Expires(s) {
      TurnDone(ring, w);
    } else {
      UsedOneMore(ring, w);
    }
    forall x | 0 <= x < n ensures Due(ring, w', Source(w'.turn, n, x), s'.ring[x]) {
      assert Due(ring, w, Source(w.turn, n, x), s.ring[x]);
      if x > 0 {
        assert s'.ring[x] == s'.ring[1..][x - 1] == s.ring[1..][x - 1];
      }
    }
  }

  lemma RoomyQuanta(ring: seq<Pcb>, rounds: nat)
    requires Roomy(ring, rounds)
    ensures forall i :: 0 <= i < |ring| ==> ring[i].quantum >= 1
  {
  }

  lemma UsedOneMore(ring: seq<Pcb>, w: Moment)
    requires Proper(ring, w) && w.used + 1 < ring[w.turn].quantum
    ensures Charge(ring, Next(ring, w), w.turn) == Charge(ring, w, w.turn) + 1
    ensures forall i :: 0 <= i < |ring| && i != w.turn ==> Charge(ring, Next(ring, w), i) == Charge(ring, w, i)
  {
  }

  // ---------- Many ticks ----------

  /** One tick for each stack pointer in esps. */
  function Ticks(s: Sys, esps: seq<uint32>): Sys
    decreases |esps|
  {
    if esps == [] then s else Ticks(Tick(s, esps[0]).0, esps[1..])
  }

  ghost function Advance(ring: seq<Pcb>, w: Moment, t: nat): (w': Moment)
    requires Proper(ring, w) && forall i :: 0 <= i < |ring| ==> ring[i].quantum >= 1
    ensures Proper(ring, w') && w'.rounds >= w.rounds
    decreases t
  {
    if t == 0 then w else Advance(ring, Next(ring, w), t - 1)
  }

  lemma RoomyEarlier(ring: seq<Pcb>, k: nat, l: nat)
    requires Roomy(ring, l) && k <= l
    ensures Roomy(ring, k)
  {
    forall i | 0 <= i < |ring| ensures ring[i].total + (k + 1) * ring[i].quantum < 0x1_0000_0000 {
      assert (l + 1) * ring[i].quantum == (k + 1) * ring[i].quantum + (l - k) * ring[i].quantum;
    }
  }

  /** At every moment of the rotation each process has been charged its completed turns and nothing
      else, save the one whose turn it is. */
  lemma {:induction false} FairRun(ring: seq<Pcb>, s: Sys, w: Moment, esps: seq<uint32>)
    requires At(ring, s, w) && forall i :: 0 <= i < |ring| ==> ring[i].quantum >= 1
    requires |esps| > 0 ==> Roomy(ring, Advance(ring, w, |esps| - 1).rounds)
    ensures At(ring, Ticks(s, esps), Advance(ring, w, |esps|))
    decreases |esps|
  {
    hide At, Tick, Roomy;
    AtProper(ring, s, w);
    if esps != [] {
      RoomyEarlier(ring, w.rounds, Advance(ring, w, |esps| - 1).rounds);
      FairTick(ring, s, w, esps[0]);
      AtProper(ring, Tick(s, esps[0]).0, Next(ring, w));
      FairRun(ring, Tick(s, esps[0]).0, Next(ring, w), esps[1..]);
    }
  }

  lemma AtProper(ring: seq<Pcb>, s: Sys, w: Moment)
    requires At(ring, s, w)
    ensures Proper(ring, w)
  {
  }

  lemma {:induction false} AdvanceAdd(ring: seq<Pcb>, w: Moment, a: nat, b: nat)
    requires Proper(ring, w) && forall i :: 0 <= i < |ring| ==> ring[i].quantum >= 1
    ensures Advance(ring, w, a + b) == Advance(ring, Advance(ring, w, a), b)
    decreases a
  {
    if a > 0 {
      AdvanceAdd(ring, Next(ring, w), a - 1, b);
    }
  }

  lemma {:induction false} AdvanceTurn(ring: seq<Pcb>, k: nat, j: nat, u: nat)
    requires j < |ring| && u < ring[j].quantum && forall i :: 0 <= i < |ring| ==> ring[i].quantum >= 1
    ensures Advance(ring, Moment(k, j, u), ring[j].quantum - u) ==
      if j + 1 < |ring| then Moment(k, j + 1, 0) else Moment(k + 1, 0, 0)
    decreases ring[j].quantum - u
  {
    if u + 1 < ring[j].quantum {
      AdvanceTurn(ring, k, j, u + 1);
    } else {
      assert Advance(ring, Next(ring, Moment(k, j, u)), 0) == Next(ring, Moment(k, j, u));
    }
  }

  lemma {:induction false} AdvanceRound(ring: seq<Pcb>, k: nat, j: nat)
    requires j < |ring| && forall i :: 0 <= i < |ring| ==> ring[i].quantum >= 1
    ensures Advance(ring, Moment(k, j, 0), SumQuanta(ring[j..])) == Moment(k + 1, 0, 0)
    decreases |ring| - j
  {
    assert ring[j..][1..] == ring[j + 1..];
    AdvanceAdd(ring, Moment(k, j, 0), ring[j].quantum, SumQuanta(ring[j + 1..]));
    AdvanceTurn(ring, k, j, 0);
    if j + 1 < |ring| {
      AdvanceRound(ring, k, j + 1);
    }
  }

  lemma {:induction false} AdvanceRounds(ring: seq<Pcb>, k: nat, m: nat)
    requires ring != [] && forall i :: 0 <= i < |ring| ==> ring[i].quantum >= 1
    ensures Advance(ring, Moment(k, 0, 0), m * SumQuanta(ring)) == Moment(k + m, 0, 0)
    decreases m
  {
    hide Advance, SumQuanta;
    RoundTicks(ring, m);
    if m == 0 {
      AdvanceNothing(ring, Moment(k, 0, 0));
    } else {
      assert ring[0..] == ring;
      AdvanceAdd(ring, Moment(k, 0, 0), SumQuanta(ring), (m - 1) * SumQuanta(ring));
      AdvanceRound(ring, k, 0);
      AdvanceRounds(ring, k + 1, m - 1);
    }
  }

  lemma AdvanceNothing(ring: seq<Pcb>, w: Moment)
    requires Proper(ring, w) && forall i :: 0 <= i < |ring| ==> ring[i].quantum >= 1
    ensures Advance(ring, w, 0) == w
  {
  }

  lemma RoundTicks(ring: seq<Pcb>, m: nat)
    ensures m * SumQuanta(ring) >= 0
    ensures if m == 0 then m * SumQuanta(ring) == 0
            else m * SumQuanta(ring) == SumQuanta(ring) + (m - 1) * SumQuanta(ring) && (m - 1) * SumQuanta(ring) >= 0
  {
    hide SumQuanta;
    MulLe(0, m, SumQuanta(ring));
    if m > 0 {
      MulLe(0, m - 1, SumQuanta(ring));
    }
  }

  lemma StartsRotation(s: Sys)
    requires AllActive(s)
    ensures At(s.ring, s, Moment(0, 0, 0)) && forall i :: 0 <= i < |s.ring| ==> s.ring[i].quantum >= 1
  {
  }

  /** Ticks since the rotation began. */
  ghost function Elapsed(ring: seq<Pcb>, w: Moment): nat
    requires Proper(ring, w)
  {
    w.rounds * SumQuanta(ring) + SumQuanta(ring[..w.turn]) + w.used
  }

  lemma NextElapsed(ring: seq<Pcb>, w: Moment)
    requires Proper(ring, w) && forall i :: 0 <= i < |ring| ==> ring[i].quantum >= 1
    ensures Elapsed(ring, Next(ring, w)) == Elapsed(ring, w) + 1
  {
    hide SumQuanta;
    SumTo(ring, w.turn);
    assert ring[..|ring|] == ring && ring[..0] == [];
    assert (w.rounds + 1) * SumQuanta(ring) == w.rounds * SumQuanta(ring) + SumQuanta(ring);
    SumNone();
  }

  lemma SumNone()
    ensures SumQuanta([]) == 0
  {
  }

  lemma SumTo(ring: seq<Pcb>, j: nat)
    requires j < |ring|
    ensures SumQuanta(ring[..j + 1]) == SumQuanta(ring[..j]) + ring[j].quantum
  {
    assert ring[..j + 1] == ring[..j] + [ring[j]];
    SumQuantaConcat(ring[..j], [ring[j]]);
    assert [ring[j]][1..] == [];
  }

  lemma {:induction false} AdvanceElapsed(ring: seq<Pcb>, w: Moment, t: nat)
    requires Proper(ring, w) && forall i :: 0 <= i < |ring| ==> ring[i].quantum >= 1
    ensures Elapsed(ring, Advance(ring, w, t)) == Elapsed(ring, w) + t
    decreases t
  {
    hide Elapsed;
    if t > 0 {
      NextElapsed(ring, w);
      AdvanceElapsed(ring, Next(ring, w), t - 1);
    }
  }

  /** t ticks complete at most t / sum(quanta) rounds. */
  lemma RoundsWithin(ring: seq<Pcb>, t: nat)
    requires ring != [] && forall i :: 0 <= i < |ring| ==> ring[i].quantum >= 1
    ensures SumQuanta(ring) >= 1 && Advance(ring, Moment(0, 0, 0), t).rounds <= t / SumQuanta(ring)
  {
    hide Advance;
    var w, n := Advance(ring, Moment(0, 0, 0), t), SumQuanta(ring);
    AdvanceElapsed(ring, Moment(0, 0, 0), t);
    assert ring[..0] == [];
    assert w.rounds * n <= t;
    DivMod(t, n);
    if w.rounds > t / n {
      MulLe(t / n + 1, w.rounds, n);
    }
  }

  lemma LastRound(ring: seq<Pcb>, m: nat)
    requires m > 0 && ring != [] && forall i :: 0 <= i < |ring| ==> ring[i].quantum >= 1
    requires Roomy(ring, m - 1)
    ensures m * SumQuanta(ring) > 0
    ensures Roomy(ring, Advance(ring, Moment(0, 0, 0), m * SumQuanta(ring) - 1).rounds)
  {
    hide Advance, Roomy, SumQuanta;
    var n := SumQuanta(ring);
    RoundsWithin(ring, 0);
    LastMultiple(m, n);
    RoundsWithin(ring, m * n - 1);
    RoomyEarlier(ring, Advance(ring, Moment(0, 0, 0), m * n - 1).rounds, m - 1);
  }

  /** Weighted fairness. m * sum(quanta) ticks bring back the same ring, with the same process
      current and the same states, and have charged every process exactly m quanta. */
  lemma WeightedFairness(s: Sys, esps: seq<uint32>, m: nat)
    requires AllActive(s) && |esps| == m * SumQuanta(s.ring) && (m > 0 ==> Roomy(s.ring, m - 1))
    ensures var s' := Ticks(s, esps);
      && |s'.ring| == |s.ring| && s'.tick == 0
      && forall i :: 0 <= i < |s.ring| ==>
           && s'.ring[i].pid == s.ring[i].pid
           && s'.ring[i].state == s.ring[i].state
           && s'.ring[i].quantum == s.ring[i].quantum
           && s'.ring[i].total == s.ring[i].total + m * s.ring[i].quantum
  {
    hide Ticks, Advance, Roomy;
    StartsRotation(s);
    AdvanceRounds(s.ring, 0, m);
    if m > 0 {
      LastRound(s.ring, m);
    }
    FairRun(s.ring, s, Moment(0, 0, 0), esps);
    var s' := Ticks(s, esps);
    forall i | 0 <= i < |s.ring|
      ensures s'.ring[i].pid == s.ring[i].pid && s'.ring[i].state == s.ring[i].state
        && s'.ring[i].quantum == s.ring[i].quantum
        && s'.ring[i].total == s.ring[i].total + m * s.ring[i].quantum
    {
      assert Due(s.ring, Moment(m, 0, 0), Source(0, |s.ring|, i), s'.ring[i]);
    }
  }

  /** p, which started as p0, has completed turns turns and used less than one more. */
  ghost predicate Completed(p0: Pcb, p: Pcb, turns: nat) {
    p.pid == p0.pid && p0.total + turns * p0.quantum <= p.total < p0.total + (turns + 1) * p0.quantum
  }

  lemma DueCompleted(ring: seq<Pcb>, w: Moment, i: nat, p: Pcb)
    requires Proper(ring, w) && i < |ring| && ring[i].quantum >= 1 && Due(ring, w, i, p)
    ensures Completed(ring[i], p, Turns(w, i))
  {
    assert (Turns(w, i) + 1) * ring[i].quantum == Turns(w, i) * ring[i].quantum + ring[i].quantum;
  }

  /** At every moment the completed turns of any two processes differ by at most one. */
  lemma TurnsBalanced(s: Sys, esps: seq<uint32>) returns (w: Moment)
    requires AllActive(s) && (|esps| > 0 ==> Roomy(s.ring, (|esps| - 1) / SumQuanta(s.ring)))
    ensures |Ticks(s, esps).ring| == |s.ring| && w.turn < |s.ring|
    ensures forall x :: 0 <= x < |s.ring| ==>
      var i := Source(w.turn, |s.ring|, x);
      Completed(s.ring[i], Ticks(s, esps).ring[x], Turns(w, i))
    ensures forall i, j :: 0 <= i < |s.ring| && 0 <= j < |s.ring| ==> Turns(w, i) <= Turns(w, j) + 1
  {
    hide Ticks, Advance, Roomy, Completed, Due;
    StartsRotation(s);
    w := Advance(s.ring, Moment(0, 0, 0), |esps|);
    if |esps| > 0 {
      RoundsWithin(s.ring, |esps| - 1);
      RoomyEarlier(s.ring, Advance(s.ring, Moment(0, 0, 0), |esps| - 1).rounds, (|esps| - 1) / SumQuanta(s.ring));
    }
    FairRun(s.ring, s, Moment(0, 0, 0), esps);
    forall x | 0 <= x < |s.ring|
      ensures var i := Source(w.turn, |s.ring|, x); Completed(s.ring[i], Ticks(s, esps).ring[x], Turns(w, i))
    {
      DueCompleted(s.ring, w, Source(w.turn, |s.ring|, x), Ticks(s, esps).ring[x]);
    }
  }

  // ---------- The kernel's own run ----------

  lemma {:induction false} AdvanceWithin(ring: seq<Pcb>, k: nat, j: nat, u: nat, t: nat)
    requires j < |ring| && u + t < ring[j].quantum && forall i :: 0 <= i < |ring| ==> ring[i].quantum >= 1
    ensures Advance(ring, Moment(k, j, u), t) == Moment(k, j, u + t)
    decreases t
  {
    if t > 0 {
      AdvanceWithin(ring, k, j, u + 1, t - 1);
    }
  }

  /** The table kernel_main starts with: Task-A, B, C and the shell, of priorities 4, 2, 1 and 4. */
  function FourStarted(a: Event, b: Event, c: Event, shell: Event): Sys
    requires a.Create? && b.Create? && c.Create? && shell.Create?
  {
    Apply(Apply(Apply(Apply(Apply(BOOT, a), b), c), shell), Start)
  }

  lemma FourRing(a: Event, b: Event, c: Event, shell: Event)
    requires a.Create? && b.Create? && c.Create? && shell.Create?
    requires a.priority == shell.priority == 4 && b.priority == 2 && c.priority == 1
    ensures var s := FourStarted(a, b, c, shell);
      && AllActive(s) && |s.ring| == 4 && Roomy(s.ring, 0)
      && s.ring[0].quantum == s.ring[3].quantum == 20 && s.ring[1].quantum == 10 && s.ring[2].quantum == 5
      && s.ring[0].pid == 1 && s.ring[1].pid == 2 && s.ring[2].pid == 3 && s.ring[3].pid == 4
  {
    var p := NewPcb(a.addr, 1, 4, a.esp, a.stack);
    var q := NewPcb(b.addr, 2, 2, b.esp, b.stack);
    var r := NewPcb(c.addr, 3, 1, c.esp, c.stack);
    var t := NewPcb(shell.addr, 4, 4, shell.esp, shell.stack);
    assert FourStarted(a, b, c, shell) == Sys([p.(state := Running), q, r, t], 0, true, 5);
  }

  /** 54 ticks on, the shell has used 19 ticks of its first turn. */
  lemma ShellTurn(ring: seq<Pcb>)
    requires |ring| == 4
    requires ring[0].quantum == ring[3].quantum == 20 && ring[1].quantum == 10 && ring[2].quantum == 5
    ensures Advance(ring, Moment(0, 0, 0), 54) == Moment(0, 3, 19)
    ensures Advance(ring, Moment(0, 0, 0), 53) == Moment(0, 3, 18)
  {
    hide Advance;
    var w := Moment(0, 0, 0);
    AdvanceTurn(ring, 0, 0, 0);
    AdvanceAdd(ring, w, 20, 10);
    AdvanceTurn(ring, 0, 1, 0);
    AdvanceAdd(ring, w, 30, 5);
    AdvanceTurn(ring, 0, 2, 0);
    AdvanceAdd(ring, w, 35, 19);
    AdvanceWithin(ring, 0, 3, 0, 19);
    AdvanceAdd(ring, w, 35, 18);
    AdvanceWithin(ring, 0, 3, 0, 18);
  }

  /** From boot: four creations, the start, 54 ticks, then process_block_others and process_exit by the
      shell, whose turn it is. The next tick makes Task-A, which is BLOCKED, RUNNING, and the shell,
      which is DEAD, READY. */
  lemma BlockedRunsFromBoot(a: Event, b: Event, c: Event, shell: Event, esps: seq<uint32>, esp: uint32)
    requires a.Create? && b.Create? && c.Create? && shell.Create?
    requires a.priority == shell.priority == 4 && b.priority == 2 && c.priority == 1
    requires |esps| == 54
    ensures var s := Ticks(FourStarted(a, b, c, shell), esps);
      && s.ring != []
      && var s2 := Apply(Apply(s, BlockOthers), Exit);
      && var s' := Tick(s2, esp).0;
      && |s2.ring| == |s'.ring| == 4
      && s2.ring[0].pid == 4 && s2.ring[0].state.Dead? && s2.ring[1].pid == 1 && s2.ring[1].state.Blocked?
      && s'.ring[0].pid == 1 && s'.ring[0].state.Running? && s'.ring[3].pid == 4 && s'.ring[3].state.Ready?
  {
    hide Ticks, Advance, Roomy, Tick, FourStarted, AllActive;
    var s0 := FourStarted(a, b, c, shell);
    FourRing(a, b, c, shell);
    StartsRotation(s0);
    ShellTurn(s0.ring);
    FairRun(s0.ring, s0, Moment(0, 0, 0), esps);
    var s := Ticks(s0, esps);
    assert Due(s0.ring, Moment(0, 3, 19), Source(3, 4, 0), s.ring[0]);
    assert Due(s0.ring, Moment(0, 3, 19), Source(3, 4, 1), s.ring[1]);
    ExitSmallRing(s, esp);
  }

  lemma ExitSmallRing(s: Sys, esp: uint32)
    requires s.running && |s.ring| == 4 && s.tick == 19 && s.ring[0].quantum == 20 && !s.ring[1].state.Dead?
    ensures var s2 := Apply(Apply(s, BlockOthers), Exit); var s' := Tick(s2, esp).0;
      && |s2.ring| == |s'.ring| == 4
      && s2.ring[0].pid == s.ring[0].pid && s2.ring[0].state.Dead?
      && s2.ring[1].pid == s.ring[1].pid && s2.ring[1].state.Blocked?
      && s'.ring[0].pid == s.ring[1].pid && s'.ring[0].state.Running?
      && s'.ring[3].pid == s.ring[0].pid && s'.ring[3].state.Ready?
  {
    hide Tick;
    ExitAfterBlockOthers(s, esp);
    assert Place(4, MAX_PROCESSES) == 1;
    assert Apply(s, BlockOthers).ring[1] == BlockAll(s.ring[1..])[0];
  }
}
