/** The code of process.c and scheduler.c on the process table in memory: PCBs linked by their next
    words and the static variables of both files. */
module Kernel {
  import opened Bytes
  import opened Sched
  import opened Pcbs

  class Table {
    const mem: array<byte>
    const at: Statics
    /** The table that memory represents; its ring starts at the current process. */
    ghost var sys: Sys

    constructor (mem: array<byte>, at: Statics)
      ensures this.mem == mem && this.at == at
    {
      this.mem, this.at := mem, at;
      sys := BOOT;
    }

    ghost predicate Valid()
      reads this, mem
    {
      mem.Length < 0x1_0000_0000 && Stored(at, mem[..], sys)
    }

    /** process_init and scheduler_init, once heap_init has run. */
    method Init()
      requires KERNEL_END <= mem.Length < 0x1_0000_0000 && Word(mem[..], at.heapStart) == KERNEL_END
      modifies this, mem
      ensures Valid() && sys == BOOT && mem[..] == InitTable(at, old(mem[..]))
    {
      hide PutWord, Stored, Word;
      InitStored(at, mem[..]);
      Store32(mem, at.current, 0);
      Store32(mem, at.nextPid, 1);
      Store32(mem, at.tick, 0);
      Store8(mem, at.running, 0);
      sys := BOOT;
    }

    /** proc->next, for the process at position i. */
    method Next(p: uint32, ghost i: nat) returns (next: uint32)
      requires Valid() && i < |sys.ring| && p == sys.ring[i].addr
      ensures next == sys.ring[After(|sys.ring|, i)].addr
    {
      hide Word, Holds;
      next := Load32(mem, p + NEXT);
    }

    /** proc->state */
    method StateOf(p: uint32, ghost i: nat) returns (code: uint32)
      requires Valid() && i < |sys.ring| && p == sys.ring[i].addr
      ensures code == Code(sys.ring[i].state)
    {
      hide Word;
      assert Holds(mem[..], sys.ring[i]);
      code := Load32(mem, p + STATE);
    }

    method Current() returns (p: uint32)
      requires Valid()
      ensures p == Pcbs.Current(sys) && (p == 0 <==> sys.ring == [])
    {
      hide Word, Holds;
      p := Load32(mem, at.current);
    }

    /** The skip scan: lines 42 to 51 of scheduler.c. */
    method Scan(current: uint32) returns (next: uint32, ghost k: nat)
      requires Valid() && sys.ring != [] && current == sys.ring[0].addr
      ensures k == Pick(sys.ring) && next == sys.ring[k].addr
    {
      hide Stored, Sched.Scan;
      next := Next(current, 0);
      k := After(|sys.ring|, 0);
      var attempts := 0;
      var state := StateOf(next, k);
      while (state == Code(Dead) || state == Code(Blocked)) && attempts < MAX_PROCESSES
        invariant 0 <= attempts <= MAX_PROCESSES && 0 <= k < |sys.ring| && next == sys.ring[k].addr
        invariant state == Code(sys.ring[k].state)
        invariant Sched.Scan(sys.ring, k, attempts) == Pick(sys.ring)
        decreases MAX_PROCESSES - attempts
      {
        ScanStep(sys.ring, k, attempts);
        next := Next(next, k);
        attempts := attempts + 1;
        k := After(|sys.ring|, k);
        state := StateOf(next, k);
      }
      ScanStep(sys.ring, k, attempts);
    }

    /** Lines 28 to 30 of scheduler.c. */
    method Charge(p: uint32) returns (tick: uint32)
      requires Valid() && sys.ring != [] && p == sys.ring[0].addr
      modifies this, mem
      ensures Valid() && sys == ChargedSys(old(sys)) && tick == sys.tick
      ensures mem[..] == ChargeBytes(at, old(mem[..]), old(sys))
    {
      hide Word, PutWord, Linked;
      PcbInside(mem[..], sys.ring, 0);
      ChargeStored(at, mem[..], sys);
      ghost var m, q := mem[..], sys.ring[0];
      var total: int := Load32(mem, p + TOTAL);
      PutWordAt(mem[..], p + TOTAL, Wrap32(total + 1));
      Store32(mem, p + TOTAL, Wrap32(total + 1));
      assert Word(mem[..], at.tick) == sys.tick;
      tick := Load32(mem, at.tick);
      tick := Wrap32(tick + 1);
      Store32(mem, at.tick, tick);
      sys := ChargedSys(sys);
    }

    /** Lines 58 to 60 of scheduler.c. */
    method SwitchTo(current: uint32, next: uint32, ghost k: nat)
      requires Valid() && 0 < k < |sys.ring| && current == sys.ring[0].addr && next == sys.ring[k].addr
      modifies this, mem
      ensures Valid() && sys == SwitchedSys(old(sys), k)
      ensures mem[..] == SwitchBytes(at, old(mem[..]), old(sys), k)
    {
      hide Word, PutWord, Rotate, Linked, StaticsHold;
      PcbInside(mem[..], sys.ring, 0);
      PcbInside(mem[..], sys.ring, k);
      SwitchStored(at, mem[..], sys, k);
      StaticsInside(at, mem[..], sys);
      Store32(mem, current + STATE, Code(Ready));
      Store32(mem, next + STATE, Code(Running));
      Store32(mem, at.current, next);
      sys := SwitchedSys(sys, k);
    }

    /** scheduler_tick: charges the tick, and at the end of the quantum moves on to the next process
        that can run. Returns the stack pointer to continue with. */
    method Tick(currentEsp: uint32) returns (esp: uint32)
      requires Valid()
      modifies this, mem
      ensures Valid()
      ensures (sys, esp) == Sched.Tick(old(sys), currentEsp)
      ensures mem[..] == TickBytes(at, old(mem[..]), old(sys), currentEsp)
    {
      hide Pick, Rotate, Stored, PutWord, ChargeBytes, SwitchBytes;
      ghost var s := sys;
      var running := IsRunning();
      var current := Current();
      if !running || current == 0 {
        return currentEsp;
      }
      var tick := Charge(current);
      var quantum := QuantumOf(current);
      if tick < quantum {
        return currentEsp;
      }
      Save(s, current, currentEsp);
      PickSaved(s.ring, currentEsp);
      var next, k := Scan(current);
      var state := StateOf(next, k);
      SameAddr(k);
      if next == current || state == Code(Dead) {
        return currentEsp;
      }
      SwitchSame(at, mem[..], sys, s, k);
      esp := EspOf(next, k);
      SwitchTo(current, next, k);
    }

    method IsRunning() returns (running: bool)
      requires Valid()
      ensures running == sys.running
    {
      hide Word, Linked;
      running := mem[at.running] != 0;
    }

    method QuantumOf(p: uint32) returns (quantum: uint32)
      requires Valid() && sys.ring != [] && p == sys.ring[0].addr
      ensures quantum == sys.ring[0].quantum
    {
      hide Word, OneCycle;
      assert Holds(mem[..], sys.ring[0]);
      quantum := Load32(mem, p + QUANTUM);
    }

    method EspOf(p: uint32, ghost i: nat) returns (esp: uint32)
      requires Valid() && i < |sys.ring| && p == sys.ring[i].addr
      ensures esp == sys.ring[i].esp
    {
      hide Word, OneCycle;
      assert Holds(mem[..], sys.ring[i]);
      esp := Load32(mem, p + ESP);
    }

    /** Lines 35 to 38 of scheduler.c. */
    method Save(ghost s: Sys, p: uint32, esp: uint32)
      requires Valid() && s.ring != [] && sys == ChargedSys(s) && p == s.ring[0].addr
      modifies this, mem
      ensures Valid() && sys == SavedSys(s, esp)
      ensures mem[..] == PutWord(PutWord(old(mem[..]), at.tick, 0), s.ring[0].addr + ESP, esp)
    {
      hide Word, PutWord, Linked, StaticsHold;
      PcbInside(mem[..], sys.ring, 0);
      StaticsInside(at, mem[..], sys);
      SaveStored(at, mem[..], s, esp);
      Store32(mem, at.tick, 0);
      Store32(mem, p + ESP, esp);
      sys := SavedSys(s, esp);
    }

    /** Only the current process has its address. */
    lemma SameAddr(k: nat)
      requires Valid() && k < |sys.ring|
      ensures sys.ring[k].addr == sys.ring[0].addr <==> k == 0
    {
      hide Word, Holds;
    }

    method SetStateAt(p: uint32, st: State, ghost i: nat)
      requires Valid() && i < |sys.ring| && p == sys.ring[i].addr
      modifies this, mem
      ensures Valid() && sys == old(sys).(ring := SetState(old(sys).ring, i, st))
      ensures mem[..] == SetStateBytes(old(mem[..]), old(sys).ring, i, st)
    {
      hide Word, PutWord, Linked, StaticsHold;
      PcbInside(mem[..], sys.ring, i);
      SetStateStored(at, mem[..], sys, i, st);
      Store32(mem, p + STATE, Code(st));
      sys := sys.(ring := SetState(sys.ring, i, st));
    }

    /** scheduler_start up to the jump into the first process. */
    method Start() returns (esp: uint32)
      requires Valid()
      modifies this, mem
      ensures Valid() && sys == Apply(old(sys), Sched.Start)
      ensures sys.ring != [] ==> sys.running && sys.ring == old(sys).ring[0 := old(sys).ring[0].(state := Running)]
      ensures mem[..] == ControlBytes(at, old(mem[..]), old(sys), Sched.Start)
      ensures sys.ring != [] ==> esp == sys.ring[0].esp
    {
      hide SetStateBytes, Stored;
      var current := Current();
      if current == 0 {
        return 0;
      }
      StaticsInside(at, mem[..], sys);
      RunningStored(at, mem[..], sys);
      mem[at.running] := 1;
      assert mem[..] == Poke(old(mem[..]), at.running, 1);
      sys := sys.(running := true);
      SetStateAt(current, Running, 0);
      esp := EspOf(current, 0);
    }

    /** process_exit up to its final halt loop. */
    method Exit()
      requires Valid()
      modifies this, mem
      ensures Valid() && sys == Apply(old(sys), Sched.Exit)
      ensures sys.ring == if old(sys).ring == [] then [] else old(sys).ring[0 := old(sys).ring[0].(state := Dead)]
      ensures mem[..] == ControlBytes(at, old(mem[..]), old(sys), Sched.Exit)
    {
      hide SetStateBytes, Stored;
      var current := Current();
      if current == 0 {
        return;
      }
      SetStateAt(current, Dead, 0);
    }

    /** process_block; p is null or the process at position i. */
    method Block(p: uint32, ghost i: nat)
      requires Valid() && (p != 0 ==> i < |sys.ring| && p == sys.ring[i].addr)
      modifies this, mem
      ensures Valid() && sys == (if p == 0 then old(sys) else Apply(old(sys), Sched.Block(i)))
      ensures p != 0 ==> sys.ring == old(sys).ring[i := old(sys).ring[i].(state := Blocked)]
      ensures mem[..] == if p == 0 then old(mem[..]) else ControlBytes(at, old(mem[..]), old(sys), Sched.Block(i))
    {
      hide SetStateBytes, Stored;
      if p != 0 {
        SetStateAt(p, Blocked, i);
      }
    }

    method Unblock(p: uint32, ghost i: nat)
      requires Valid() && (p != 0 ==> i < |sys.ring| && p == sys.ring[i].addr)
      modifies this, mem
      ensures Valid() && sys == (if p == 0 then old(sys) else Apply(old(sys), Sched.Unblock(i)))
      ensures p != 0 ==> sys.ring == old(sys).ring[i := old(sys).ring[i].(state := Ready)]
      ensures mem[..] == if p == 0 then old(mem[..]) else ControlBytes(at, old(mem[..]), old(sys), Sched.Unblock(i))
    {
      hide SetStateBytes, Stored;
      if p != 0 {
        SetStateAt(p, Ready, i);
      }
    }

    /** process_block_others: the loop goes once round the ring and terminates. */
    method BlockOthers()
      requires Valid()
      modifies this, mem
      ensures Valid() && sys == Apply(old(sys), Sched.BlockOthers) && |sys.ring| == |old(sys).ring|
      ensures forall j {:trigger sys.ring[j]} :: 0 <= j < |sys.ring| ==>
        sys.ring[j] == if j == 0 || old(sys).ring[j].state == Dead then old(sys).ring[j] else old(sys).ring[j].(state := Blocked)
      ensures mem[..] == ControlBytes(at, old(mem[..]), old(sys), Sched.BlockOthers)
    {
      hide SetStateBytes, Stored, BlockBytes, BlockedBetween, BlockAll;
      var current := Current();
      ghost var s, n := sys, |sys.ring|;
      BlockBytesStep(mem[..], s.ring, n);
      if current == 0 {
        BlockBytesStep(mem[..], s.ring, 1);
        return;
      }
      BlockedEnds(s.ring, 1);
      var p := Next(current, 0);
      ghost var i := 1;
      SameAddr(After(n, 0));
      while p != current
        invariant Valid() && 1 <= i <= n && sys == s.(ring := BlockedBetween(s.ring, 1, i))
        invariant current == s.ring[0].addr && p == s.ring[if i < n then i else 0].addr
        invariant p == current <==> i == n
        invariant BlockBytes(mem[..], s.ring, i) == BlockBytes(old(mem[..]), s.ring, 1)
        decreases n - i
      {
        BlockOne(s, p, i);
        BlockedAddrs(s.ring, i + 1);
        p := Next(p, i);
        i := i + 1;
        SameAddr(if i < n then i else 0);
      }
      BlockBytesStep(mem[..], s.ring, n);
    }

    /** One round of the loop, at the process at position i of the ring before it. */
    method BlockOne(ghost s: Sys, p: uint32, ghost i: nat)
      requires Valid() && 1 <= i < |s.ring| && sys == s.(ring := BlockedBetween(s.ring, 1, i)) && p == s.ring[i].addr
      modifies this, mem
      ensures Valid() && sys == s.(ring := BlockedBetween(s.ring, 1, i + 1))
      ensures BlockBytes(mem[..], s.ring, i + 1) == BlockBytes(old(mem[..]), s.ring, i)
    {
      hide SetStateBytes, Stored, BlockBytes, BlockedBetween;
      BlockBytesStep(mem[..], s.ring, i);
      BlockedOneMore(s.ring, i);
      var state := StateOf(p, i);
      if state != Code(Dead) {
        SetBytesSame(mem[..], sys.ring, s.ring, i);
        SetStateAt(p, Blocked, i);
      }
    }

    /** process_count_alive */
    method CountAlive() returns (n: int)
      requires Valid()
      ensures n == |Alive(sys.ring)|
    {
      hide Stored, Alive;
      var current := Current();
      if current == 0 {
        AliveNone();
        return 0;
      }
      n := 0;
      AliveNone();
      var p, done := current, false;
      ghost var i := 0;
      while !done
        invariant 0 <= i <= |sys.ring| && n == |Alive(sys.ring[..i])|
        invariant p == (if i < |sys.ring| then sys.ring[i].addr else current) && (done <==> i == |sys.ring|)
        decreases |sys.ring| - i
      {
        var state := StateOf(p, i);
        AliveOneMore(sys.ring, i);
        if state != Code(Dead) {
          n := n + 1;
        }
        p := Next(p, i);
        i := i + 1;
        SameAddr(if i < |sys.ring| then i else 0);
        done := p == current;
      }
      assert sys.ring[..|sys.ring|] == sys.ring;
    }

    /** process_count_active */
    method CountActive() returns (n: int)
      requires Valid()
      ensures n == |ActiveSet(sys.ring)|
    {
      hide Stored, ActiveSet;
      var current := Current();
      if current == 0 {
        AliveNone();
        return 0;
      }
      n := 0;
      AliveNone();
      var p, done := current, false;
      ghost var i := 0;
      while !done
        invariant 0 <= i <= |sys.ring| && n == |ActiveSet(sys.ring[..i])|
        invariant p == (if i < |sys.ring| then sys.ring[i].addr else current) && (done <==> i == |sys.ring|)
        decreases |sys.ring| - i
      {
        var state := StateOf(p, i);
        ActiveOneMore(sys.ring, i);
        if state == Code(Ready) || state == Code(Running) {
          n := n + 1;
        }
        p := Next(p, i);
        i := i + 1;
        SameAddr(if i < |sys.ring| then i else 0);
        done := p == current;
      }
      assert sys.ring[..|sys.ring|] == sys.ring;
    }

    /** Lines 25 to 33 of process.c; name is a C string. */
    method Fill(proc: uint32, name: seq<byte>, priority: uint32)
      requires proc + PCB_SIZE <= mem.Length && KERNEL_END <= mem.Length && 0 in name
      requires Word(mem[..], at.nextPid) == sys.nextPid
      modifies mem
      ensures mem[..] == FillBytes(at, old(mem[..]), sys, proc, CString(name), priority)
    {
      hide Word, PutWord, PutBytes, Label;
      var pid: int := Load32(mem, at.nextPid);
      Store32(mem, proc + PID, pid);
      Store32(mem, at.nextPid, Wrap32(pid + 1));
      Store32(mem, proc + STATE, Code(Ready));
      Store32(mem, proc + PRIORITY, priority);
      Store32(mem, proc + TOTAL, 0);
      Store32(mem, proc + QUANTUM, Wrap32(priority * 5));
      CopyName(proc + NAME, name);
    }

    /** Lines 31 to 33 of process.c. */
    method CopyName(a: nat, name: seq<byte>)
      requires a + NAME_MAX + 1 <= mem.Length && 0 in name
      modifies mem
      ensures mem[..] == PutBytes(old(mem[..]), a, Label(CString(name)))
    {
      hide PutBytes, Label, Poke;
      ghost var l := Label(CString(name));
      var i := 0;
      assert l[0..] == l;
      LabelAt(CString(name), 0);
      while name[i] != 0 && i < NAME_MAX
        invariant 0 <= i <= |CString(name)| && i <= NAME_MAX
        invariant PutBytes(mem[..], a + i, l[i..]) == PutBytes(old(mem[..]), a, l)
        decreases NAME_MAX - i
      {
        PutBytesStep(mem[..], a, l, i);
        LabelAt(CString(name), i);
        Store8(mem, a + i, name[i]);
        i := i + 1;
      }
      LabelAt(CString(name), i);
      PutBytesStep(mem[..], a, l, i);
      Store8(mem, a + i, 0);
    }

    /** Lines 58 to 67 of process.c: the PCB that holds p goes in just behind the current process. */
    method Insert(proc: uint32, ghost p: Pcb)
      requires Valid() && p.addr == proc && Holds(mem[..], p) && Spaced(mem[..], sys.ring + [p])
      modifies this, mem
      ensures Valid() && sys == old(sys).(ring := old(sys).ring + [p])
      ensures mem[..] == InsertBytes(at, old(mem[..]), old(sys), proc)
    {
      hide Stored, PutWord, Holds, Spaced;
      InsertStored(at, mem[..], sys, p);
      LastInside(mem[..], sys.ring, p);
      StaticsInside(at, mem[..], sys);
      var current := Current();
      if current == 0 {
        Store32(mem, proc + NEXT, proc);
        Store32(mem, at.current, proc);
      } else {
        var tmp := current;
        ghost var i := 0;
        var next := Next(tmp, i);
        SameAddr(After(|sys.ring|, i));
        while next != current
          invariant Valid() && sys == old(sys) && mem[..] == old(mem[..])
          invariant 0 <= i < |sys.ring| && tmp == sys.ring[i].addr && next == sys.ring[After(|sys.ring|, i)].addr
          invariant next == current <==> i == |sys.ring| - 1
          decreases |sys.ring| - i
        {
          tmp := next;
          i := i + 1;
          next := Next(tmp, i);
          SameAddr(After(|sys.ring|, i));
        }
        Store32(mem, tmp + NEXT, proc);
        Store32(mem, proc + NEXT, current);
      }
      sys := sys.(ring := sys.ring + [p]);
    }
  }

  lemma PutBytesStep(m: Mem, a: int, l: seq<byte>, i: nat)
    requires i < |l|
    ensures PutBytes(m, a + i, l[i..]) == PutBytes(Poke(m, a + i, l[i]), a + i + 1, l[i + 1..])
    ensures i + 1 == |l| ==> PutBytes(m, a + i, l[i..]) == Poke(m, a + i, l[i])
  {
    assert l[i..][1..] == l[i + 1..];
  }

  lemma LabelAt(name: seq<byte>, i: nat)
    requires i <= |name| && i <= NAME_MAX
    ensures |Label(name)| == (if |name| <= NAME_MAX then |name| else NAME_MAX) + 1
    ensures Label(name)[i] == if i < |name| && i < NAME_MAX then name[i] else 0
  {
  }

  lemma PcbInside(m: Mem, ring: seq<Pcb>, i: nat)
    requires Linked(m, ring) && i < |ring|
    ensures KERNEL_END <= ring[i].addr && ring[i].addr + PCB_SIZE <= |m|
    ensures Holds(m, ring[i])
  {
    hide Holds, Word;
  }

  lemma StaticsInside(at: Statics, m: Mem, s: Sys)
    requires Stored(at, m, s)
    ensures |m| >= KERNEL_END && at.current + 4 <= |m| && at.tick + 4 <= |m| && at.running < |m| && at.nextPid + 4 <= |m|
  {
  }

  lemma LastInside(m: Mem, ring: seq<Pcb>, p: Pcb)
    requires Spaced(m, ring + [p])
    ensures p.addr + PCB_SIZE <= |m| && forall i :: 0 <= i < |ring| ==> ring[i].addr + PCB_SIZE <= |m|
  {
    assert (ring + [p])[|ring|] == p;
    assert forall i :: 0 <= i < |ring| ==> (ring + [p])[i] == ring[i];
  }

  lemma BlockBytesStep(m: Mem, ring: seq<Pcb>, i: nat)
    ensures BlockBytes(m, ring, i) ==
      if i >= |ring| then m
      else BlockBytes(if ring[i].state.Dead? then m else SetStateBytes(m, ring, i, Blocked), ring, i + 1)
  {
    hide SetStateBytes;
  }

  lemma SetBytesSame(m: Mem, r: seq<Pcb>, r1: seq<Pcb>, i: nat)
    requires i < |r| && i < |r1| && r[i].addr == r1[i].addr
    ensures SetStateBytes(m, r, i, Blocked) == SetStateBytes(m, r1, i, Blocked)
  {
  }

  lemma BlockedAddrs(ring: seq<Pcb>, i: nat)
    requires 1 <= i <= |ring|
    ensures forall j :: 0 <= j < |ring| ==> BlockedBetween(ring, 1, i)[j].addr == ring[j].addr
  {
  }

  lemma BlockedOneMore(ring: seq<Pcb>, i: nat)
    requires 1 <= i < |ring|
    ensures BlockedBetween(ring, 1, i)[i] == ring[i]
    ensures BlockedBetween(ring, 1, i + 1) == if ring[i].state.Dead? then BlockedBetween(ring, 1, i) else SetState(BlockedBetween(ring, 1, i), i, Blocked)
  {
  }

  lemma AliveNone()
    ensures Alive([]) == {} && ActiveSet([]) == {}
  {
  }

  lemma AliveOneMore(v: seq<Pcb>, i: nat)
    requires i < |v|
    ensures |Alive(v[..i + 1])| == |Alive(v[..i])| + if v[i].state.Dead? then 0 else 1
  {
    assert Alive(v[..i + 1]) == Alive(v[..i]) + if v[i].state.Dead? then {} else {i};
  }

  lemma ActiveOneMore(v: seq<Pcb>, i: nat)
    requires i < |v|
    ensures |ActiveSet(v[..i + 1])| == |ActiveSet(v[..i])| + if Active(v[i]) then 1 else 0
  {
    assert ActiveSet(v[..i + 1]) == ActiveSet(v[..i]) + if Active(v[i]) then {i} else {};
  }

  lemma ScanStep(ring: seq<Pcb>, i: nat, a: nat)
    requires i < |ring| && a <= MAX_PROCESSES
    ensures Scan(ring, i, a) ==
      if a < MAX_PROCESSES && Skipped(ring[i]) then Scan(ring, After(|ring|, i), a + 1) else i
  {
  }
}
