/** The process table in memory: PCBs in heap blocks, linked into a ring by their next words, and
    the static variables of process.c, scheduler.c and heap.c. */
module Pcbs {
  import opened Bytes
  import opened Sched
  import HeapList

  /** Offsets in process_t. */
  const PID := 0
  const STATE := 4
  const PRIORITY := 8
  const ESP := 12
  const STACK := 16
  const NAME := 20
  const TOTAL := 52
  const QUANTUM := 56
  const NEXT := 60
  /** sizeof(process_t) */
  const PCB_SIZE := 64
  const NAME_MAX := 31

  /** Kernel memory ends where the heap starts. */
  const KERNEL_END := HeapList.HEAP_START

  /** Where the linker has put current_process, tick_count, scheduler_running, next_pid and
      heap_start_ptr, and the range [code, codeEnd) of the instructions and descriptor tables. */
  datatype Places = Places(current: nat, tick: nat, running: nat, nextPid: nat, heapStart: nat,
                           code: nat, codeEnd: nat)

  predicate Clear(a: int, n: int, b: int, k: int) {
    a + n <= b || b + k <= a
  }

  /** Any five places in kernel memory that do not overlap. */
  predicate Placed(p: Places) {
    && p.current + 4 <= KERNEL_END && p.tick + 4 <= KERNEL_END && p.running + 1 <= KERNEL_END
    && p.nextPid + 4 <= KERNEL_END && p.heapStart + 4 <= KERNEL_END && p.codeEnd <= KERNEL_END
    && Clear(p.current, 4, p.tick, 4) && Clear(p.current, 4, p.running, 1)
    && Clear(p.current, 4, p.nextPid, 4) && Clear(p.current, 4, p.heapStart, 4)
    && Clear(p.tick, 4, p.running, 1) && Clear(p.tick, 4, p.nextPid, 4) && Clear(p.tick, 4, p.heapStart, 4)
    && Clear(p.running, 1, p.nextPid, 4) && Clear(p.running, 1, p.heapStart, 4)
    && Clear(p.nextPid, 4, p.heapStart, 4)
  }

  type Statics = p: Places | Placed(p)
    witness Places(0x10_4000, 0x10_4004, 0x10_4008, 0x10_400C, 0x10_4010, 0x10_0000, 0x10_4000)

  predicate InStatics(at: Statics, x: int) {
    || at.current <= x < at.current + 4 || at.tick <= x < at.tick + 4 || x == at.running
    || at.nextPid <= x < at.nextPid + 4 || at.heapStart <= x < at.heapStart + 4
  }

  function Code(st: State): uint32 {
    match st
    case Ready => 0
    case Running => 1
    case Blocked => 2
    case Dead => 3
  }

  // ---------- Representation ----------

  /** The PCB at p.addr holds the fields of p. */
  ghost predicate Holds(m: Mem, p: Pcb) {
    && Word(m, p.addr + PID) == p.pid && Word(m, p.addr + STATE) == Code(p.state)
    && Word(m, p.addr + PRIORITY) == p.priority && Word(m, p.addr + ESP) == p.esp
    && Word(m, p.addr + STACK) == p.stack && Word(m, p.addr + TOTAL) == p.total
    && Word(m, p.addr + QUANTUM) == p.quantum
  }

  /** PCBs lie in memory above the kernel, none at address 0, and do not overlap. */
  ghost predicate Spaced(m: Mem, ring: seq<Pcb>) {
    && (forall i :: 0 <= i < |ring| ==> KERNEL_END <= ring[i].addr && ring[i].addr + PCB_SIZE <= |m|)
    && (forall i, j :: 0 <= i < |ring| && 0 <= j < |ring| && i != j ==>
          Clear(ring[i].addr, PCB_SIZE, ring[j].addr, PCB_SIZE))
  }

  /** All PCBs lie on one cycle of next words, in the order of the ring. */
  ghost predicate OneCycle(m: Mem, ring: seq<Pcb>) {
    forall i :: 0 <= i < |ring| ==> Word(m, ring[i].addr + NEXT) == ring[After(|ring|, i)].addr
  }

  ghost predicate Linked(m: Mem, ring: seq<Pcb>) {
    && Spaced(m, ring)
    && (forall i :: 0 <= i < |ring| ==> Holds(m, ring[i]))
    && OneCycle(m, ring)
  }

  function Current(s: Sys): uint32 {
    if s.ring == [] then 0 else s.ring[0].addr
  }

  /** The statics hold the table's values, and heap_start_ptr the start of the heap. */
  ghost predicate StaticsHold(at: Statics, m: Mem, s: Sys) {
    && |m| >= KERNEL_END
    && Word(m, at.current) == Current(s) && Word(m, at.tick) == s.tick
    && Byte(m, at.running) == (if s.running then 1 else 0) && Word(m, at.nextPid) == s.nextPid
    && Word(m, at.heapStart) == KERNEL_END
  }

  /** Memory m represents the process table s. */
  ghost predicate Stored(at: Statics, m: Mem, s: Sys) {
    Linked(m, s.ring) && StaticsHold(at, m, s)
  }

  ghost predicate InPcb(p: Pcb, x: int) {
    p.addr <= x < p.addr + PCB_SIZE
  }

  /** Byte x belongs to the process table: to a PCB of the ring or to one of the statics. */
  ghost predicate InTable(at: Statics, ring: seq<Pcb>, x: int) {
    InStatics(at, x) || exists i :: 0 <= i < |ring| && InPcb(ring[i], x)
  }

  /** Nothing but the process table differs between m and m'. */
  ghost predicate SameOffTable(at: Statics, ring: seq<Pcb>, m: Mem, m': Mem) {
    |m| == |m'| && forall x :: !InTable(at, ring, x) ==> Byte(m, x) == Byte(m', x)
  }

  ghost predicate SameOnTable(at: Statics, ring: seq<Pcb>, m: Mem, m': Mem) {
    |m| == |m'| && forall x :: InTable(at, ring, x) ==> Byte(m, x) == Byte(m', x)
  }

  // ---------- One store ----------

  lemma PutWordAt(m: Mem, a: int, v: uint32)
    requires 0 <= a && a + 4 <= |m|
    ensures Word(PutWord(m, a, v), a) == v
    ensures forall b {:trigger Word(PutWord(m, a, v), b)} :: Clear(a, 4, b, 4) ==> Word(PutWord(m, a, v), b) == Word(m, b)
    ensures SameOutside(m, PutWord(m, a, v), a, a + 4)
  {
    hide Word, PutWord;
    PutWordSpec(m, a, v);
    forall b | Clear(a, 4, b, 4) ensures Word(PutWord(m, a, v), b) == Word(m, b) {
      WordSame(m, PutWord(m, a, v), b);
    }
  }

  lemma PcbSame(m: Mem, m': Mem, p: Pcb)
    requires SameOn(m, m', p.addr, p.addr + PCB_SIZE) && Holds(m, p)
    ensures Holds(m', p) && Word(m', p.addr + NEXT) == Word(m, p.addr + NEXT)
  {
    hide Word;
    forall a | p.addr <= a <= p.addr + NEXT ensures Word(m', a) == Word(m, a) {
      WordSame(m, m', a);
    }
  }

  /** A process table read through another memory that agrees on it. */
  lemma StoredSame(at: Statics, m: Mem, m': Mem, s: Sys)
    requires Stored(at, m, s) && SameOnTable(at, s.ring, m, m')
    ensures Stored(at, m', s)
  {
    hide Word, Holds;
    forall a | forall x :: a <= x < a + 4 ==> InTable(at, s.ring, x) ensures Word(m', a) == Word(m, a) {
      WordSame(m, m', a);
    }
    forall i | 0 <= i < |s.ring|
      ensures Holds(m', s.ring[i]) && Word(m', s.ring[i].addr + NEXT) == Word(m, s.ring[i].addr + NEXT)
    {
      assert forall x :: InPcb(s.ring[i], x) ==> InTable(at, s.ring, x);
      PcbSame(m, m', s.ring[i]);
    }
    assert InTable(at, s.ring, at.running);
  }

  // ---------- Stores into the table ----------

  /** p is q but for the field at offset o, which holds v. */
  predicate FieldSet(q: Pcb, p: Pcb, o: int, v: uint32) {
    || (o == STATE && v == Code(p.state) && p == q.(state := p.state))
    || (o == ESP && v == p.esp && p == q.(esp := p.esp))
    || (o == TOTAL && v == p.total && p == q.(total := p.total))
  }

  lemma FieldHolds(m: Mem, q: Pcb, p: Pcb, o: int, v: uint32)
    requires Holds(m, q) && FieldSet(q, p, o, v) && p.addr + PCB_SIZE <= |m|
    ensures Holds(PutWord(m, p.addr + o, v), p)
    ensures Word(PutWord(m, p.addr + o, v), p.addr + NEXT) == Word(m, p.addr + NEXT)
  {
    hide Word, PutWord;
    PutWordAt(m, p.addr + o, v);
  }

  /** A store to a field of the PCB at i that the ring is not linked by. */
  lemma FieldStored(at: Statics, m: Mem, s: Sys, i: nat, o: int, v: uint32, p: Pcb)
    requires Stored(at, m, s) && i < |s.ring| && FieldSet(s.ring[i], p, o, v)
    ensures Stored(at, PutWord(m, p.addr + o, v), s.(ring := s.ring[i := p]))
    ensures SameOffTable(at, s.ring, m, PutWord(m, p.addr + o, v))
  {
    hide Word, PutWord, Holds;
    var m', ring' := PutWord(m, p.addr + o, v), s.ring[i := p];
    PutWordAt(m, p.addr + o, v);
    FieldHolds(m, s.ring[i], p, o, v);
    forall j | 0 <= j < |ring'| ensures Holds(m', ring'[j]) && Word(m', ring'[j].addr + NEXT) == Word(m, s.ring[j].addr + NEXT) {
      if j != i {
        PcbSame(m, m', s.ring[j]);
      }
    }
    assert forall x :: p.addr + o <= x < p.addr + o + 4 ==> InPcb(s.ring[i], x);
  }

  lemma TickStored(at: Statics, m: Mem, s: Sys, v: uint32)
    requires Stored(at, m, s)
    ensures Stored(at, PutWord(m, at.tick, v), s.(tick := v))
    ensures SameOffTable(at, s.ring, m, PutWord(m, at.tick, v))
  {
    hide Word, PutWord, Holds;
    PutWordAt(m, at.tick, v);
    KernelStore(m, PutWord(m, at.tick, v), s.ring);
  }

  lemma RunningStored(at: Statics, m: Mem, s: Sys)
    requires Stored(at, m, s)
    ensures Stored(at, Poke(m, at.running, 1), s.(running := true))
    ensures SameOffTable(at, s.ring, m, Poke(m, at.running, 1))
  {
    hide Word, Holds;
    var m' := Poke(m, at.running, 1);
    WordSame(m, m', at.current);
    WordSame(m, m', at.tick);
    WordSame(m, m', at.nextPid);
    WordSame(m, m', at.heapStart);
    KernelStore(m, m', s.ring);
  }

  /** Moving current_process to the process k places ahead turns the ring. */
  lemma CurrentStored(at: Statics, m: Mem, s: Sys, k: nat)
    requires Stored(at, m, s) && k < |s.ring|
    ensures var m' := PutWord(m, at.current, s.ring[k].addr);
      Stored(at, m', s.(ring := Rotate(s.ring, k))) && SameOffTable(at, s.ring, m, m')
  {
    hide Word, PutWord, Holds;
    PutWordAt(m, at.current, s.ring[k].addr);
    KernelStore(m, PutWord(m, at.current, s.ring[k].addr), s.ring);
    RotateLinked(PutWord(m, at.current, s.ring[k].addr), s.ring, k);
  }

  /** A store below the heap leaves every PCB alone. */
  lemma KernelStore(m: Mem, m': Mem, ring: seq<Pcb>)
    requires Linked(m, ring) && SameOutside(m, m', 0, KERNEL_END)
    ensures Linked(m', ring)
  {
    hide Word, Holds;
    forall i | 0 <= i < |ring|
      ensures Holds(m', ring[i]) && Word(m', ring[i].addr + NEXT) == Word(m, ring[i].addr + NEXT)
    {
      PcbSame(m, m', ring[i]);
    }
  }

  lemma RotateAt<T>(r: seq<T>, k: nat)
    requires k < |r|
    ensures forall i :: 0 <= i < |r| ==> Rotate(r, k)[i] == r[Source(k, |r|, i)]
  {
  }

  /** Rotation keeps the order round the ring. */
  lemma SourceAfter(k: nat, n: nat, i: nat)
    requires k < n && i < n
    ensures Source(k, n, After(n, i)) == After(n, Source(k, n, i))
  {
  }

  lemma RotateLinked(m: Mem, ring: seq<Pcb>, k: nat)
    requires Linked(m, ring) && k < |ring|
    ensures Linked(m, Rotate(ring, k))
  {
    hide Word, Holds, Rotate;
    RotateAt(ring, k);
    var r, n := Rotate(ring, k), |ring|;
    forall i | 0 <= i < n ensures Word(m, r[i].addr + NEXT) == r[After(n, i)].addr {
      SourceAfter(k, n, i);
    }
  }

  // ---------- Creation ----------

  /** The name bytes process_create stores: at most 31 characters and a NUL. */
  function Label(name: seq<byte>): (r: seq<byte>)
    ensures 1 <= |r| <= NAME_MAX + 1 && r[|r| - 1] == 0
    ensures forall i :: 0 <= i < |r| - 1 ==> i < |name| && r[i] == name[i]
  {
    (if |name| <= NAME_MAX then name else name[..NAME_MAX]) + [0]
  }

  function PutBytes(m: Mem, a: int, bs: seq<byte>): (r: Mem)
    ensures |r| == |m|
    decreases |bs|
  {
    if bs == [] then m else PutBytes(Poke(m, a, bs[0]), a + 1, bs[1..])
  }

  lemma {:induction false} PutBytesOutside(m: Mem, a: int, bs: seq<byte>)
    ensures SameOutside(m, PutBytes(m, a, bs), a, a + |bs|)
    decreases |bs|
  {
    if bs != [] {
      PutBytesOutside(Poke(m, a, bs[0]), a + 1, bs[1..]);
    }
  }

  /** Lines 25 to 33 of process.c: the fields of the PCB at a, and next_pid. The stack field has
      been stored before. */
  function FillBytes(at: Statics, m: Mem, s: Sys, a: uint32, name: seq<byte>, priority: uint32): (r: Mem)
    ensures |r| == |m|
  {
    var m1 := PutWord(m, a + PID, s.nextPid);
    var m2 := PutWord(m1, at.nextPid, Wrap32(s.nextPid + 1));
    var m3 := PutWord(m2, a + STATE, Code(Ready));
    var m4 := PutWord(m3, a + PRIORITY, priority);
    var m5 := PutWord(m4, a + TOTAL, 0);
    var m6 := PutWord(m5, a + QUANTUM, Quantum(priority));
    PutBytes(m6, a + NAME, Label(name))
  }

  /** Lines 58 to 67 of process.c: the PCB at a goes in just behind the current process. */
  function InsertBytes(at: Statics, m: Mem, s: Sys, a: uint32): (r: Mem)
    ensures |r| == |m|
  {
    if s.ring == [] then PutWord(PutWord(m, a + NEXT, a), at.current, a)
    else PutWord(PutWord(m, s.ring[|s.ring| - 1].addr + NEXT, a), a + NEXT, s.ring[0].addr)
  }

  /** After filling, the PCB at a holds all fields but esp. */
  lemma FillHolds(at: Statics, m: Mem, s: Sys, a: uint32, name: seq<byte>, priority: uint32, esp: uint32, stack: uint32)
    requires KERNEL_END <= a && a + PCB_SIZE <= |m| && Word(m, a + STACK) == stack
    ensures var m', p := FillBytes(at, m, s, a, name, priority), NewPcb(a, s.nextPid, priority, esp, stack);
      && (Word(m', a + ESP) == esp ==> Holds(m', p))
      && Word(m', at.nextPid) == Wrap32(s.nextPid + 1)
      && (forall x :: !(a <= x < a + PCB_SIZE) && !(at.nextPid <= x < at.nextPid + 4) ==> Byte(m', x) == Byte(m, x))
  {
    hide Word, PutWord, PutBytes;
    var m1 := PutWord(m, a + PID, s.nextPid);
    var m2 := PutWord(m1, at.nextPid, Wrap32(s.nextPid + 1));
    var m3 := PutWord(m2, a + STATE, Code(Ready));
    var m4 := PutWord(m3, a + PRIORITY, priority);
    var m5 := PutWord(m4, a + TOTAL, 0);
    var m6 := PutWord(m5, a + QUANTUM, Quantum(priority));
    var m7 := PutBytes(m6, a + NAME, Label(name));
    PutWordAt(m, a + PID, s.nextPid);
    PutWordAt(m1, at.nextPid, Wrap32(s.nextPid + 1));
    PutWordAt(m2, a + STATE, Code(Ready));
    PutWordAt(m3, a + PRIORITY, priority);
    PutWordAt(m4, a + TOTAL, 0);
    PutWordAt(m5, a + QUANTUM, Quantum(priority));
    PutBytesOutside(m6, a + NAME, Label(name));
    forall b | b + 4 <= a + NAME || a + NAME + 32 <= b ensures Word(m7, b) == Word(m6, b) {
      WordSame(m6, m7, b);
    }
  }

  /** Inserting a PCB that holds p, clear of all others, appends p to the ring. */
  lemma InsertStored(at: Statics, m: Mem, s: Sys, p: Pcb)
    requires Stored(at, m, s) && Spaced(m, s.ring + [p]) && Holds(m, p)
    ensures var m', s' := InsertBytes(at, m, s, p.addr), s.(ring := s.ring + [p]);
      Stored(at, m', s') && SameOffTable(at, s'.ring, m, m')
  {
    hide Word, PutWord, Holds, InsertBytes, Stored;
    InsertOffTable(at, m, s, p);
    if s.ring == [] {
      InsertFirst(at, m, s, p);
    } else {
      InsertLast(at, m, s, p);
    }
  }

  /** The words insertion writes: the next words of the new PCB and of the last one, or
      current_process when there is none. */
  ghost predicate InLinks(at: Statics, s: Sys, a: uint32, x: int) {
    || a + NEXT <= x < a + PCB_SIZE
    || if s.ring == [] then at.current <= x < at.current + 4
       else s.ring[|s.ring| - 1].addr + NEXT <= x < s.ring[|s.ring| - 1].addr + PCB_SIZE
  }

  lemma InsertOutside(at: Statics, m: Mem, s: Sys, a: uint32)
    ensures forall x :: !InLinks(at, s, a, x) ==> Byte(InsertBytes(at, m, s, a), x) == Byte(m, x)
  {
    hide Word, PutWord;
    if s.ring == [] {
      PutWordSpec(m, a + NEXT, a);
      PutWordSpec(PutWord(m, a + NEXT, a), at.current, a);
    } else {
      var t := s.ring[|s.ring| - 1].addr + NEXT;
      PutWordSpec(m, t, a);
      PutWordSpec(PutWord(m, t, a), a + NEXT, s.ring[0].addr);
    }
  }

  lemma InsertOffTable(at: Statics, m: Mem, s: Sys, p: Pcb)
    ensures SameOffTable(at, s.ring + [p], m, InsertBytes(at, m, s, p.addr))
  {
    hide InsertBytes;
    var r, n := s.ring + [p], |s.ring|;
    InsertOutside(at, m, s, p.addr);
    assert r[n] == p && (n > 0 ==> r[n - 1] == s.ring[n - 1]);
    assert forall x :: InPcb(r[n], x) ==> InTable(at, r, x);
    assert n > 0 ==> forall x :: InPcb(r[n - 1], x) ==> InTable(at, r, x);
  }

  lemma InsertFirst(at: Statics, m: Mem, s: Sys, p: Pcb)
    requires Stored(at, m, s) && Spaced(m, s.ring + [p]) && Holds(m, p) && s.ring == []
    ensures Stored(at, InsertBytes(at, m, s, p.addr), s.(ring := s.ring + [p]))
  {
    hide Word, PutWord, Holds;
    assert s.ring + [p] == [p] && (s.ring + [p])[0] == p;
    var m1 := PutWord(m, p.addr + NEXT, p.addr);
    PutWordAt(m, p.addr + NEXT, p.addr);
    NextHolds(m, p, p.addr);
    PutWordAt(m1, at.current, p.addr);
    PcbSame(m1, PutWord(m1, at.current, p.addr), p);
    KernelWords(at, m, m1);
  }

  /** Only the next word of the PCB at p.addr changes. */
  lemma NextHolds(m: Mem, p: Pcb, v: uint32)
    requires Holds(m, p) && p.addr + PCB_SIZE <= |m|
    ensures Holds(PutWord(m, p.addr + NEXT, v), p)
  {
    hide Word, PutWord;
    PutWordAt(m, p.addr + NEXT, v);
  }

  lemma KernelWords(at: Statics, m: Mem, m': Mem)
    requires forall x :: x < KERNEL_END ==> Byte(m', x) == Byte(m, x)
    ensures Word(m', at.current) == Word(m, at.current) && Word(m', at.tick) == Word(m, at.tick)
    ensures Byte(m', at.running) == Byte(m, at.running) && Word(m', at.nextPid) == Word(m, at.nextPid)
    ensures Word(m', at.heapStart) == Word(m, at.heapStart)
  {
    hide Word;
    WordSame(m, m', at.current);
    WordSame(m, m', at.tick);
    WordSame(m, m', at.nextPid);
    WordSame(m, m', at.heapStart);
  }

  lemma InsertLast(at: Statics, m: Mem, s: Sys, p: Pcb)
    requires Stored(at, m, s) && Spaced(m, s.ring + [p]) && Holds(m, p) && s.ring != []
    ensures Stored(at, InsertBytes(at, m, s, p.addr), s.(ring := s.ring + [p]))
  {
    hide Word, PutWord, Linked, InsertBytes, Spaced, Holds;
    InsertOutside(at, m, s, p.addr);
    LastAbove(m, s.ring, p);
    KernelWords(at, m, InsertBytes(at, m, s, p.addr));
    InsertLinked(at, m, s, p);
  }

  lemma LastAbove(m: Mem, ring: seq<Pcb>, p: Pcb)
    requires Spaced(m, ring + [p])
    ensures KERNEL_END <= p.addr && forall i :: 0 <= i < |ring| ==> KERNEL_END <= ring[i].addr
  {
    assert (ring + [p])[|ring|] == p;
    assert forall i :: 0 <= i < |ring| ==> (ring + [p])[i] == ring[i];
  }

  lemma InsertLinked(at: Statics, m: Mem, s: Sys, p: Pcb)
    requires Linked(m, s.ring) && Spaced(m, s.ring + [p]) && Holds(m, p) && s.ring != []
    ensures Linked(InsertBytes(at, m, s, p.addr), s.ring + [p])
  {
    hide Word, PutWord, Holds;
    var ring', n := s.ring + [p], |s.ring|;
    var q := s.ring[n - 1];
    var m1 := PutWord(m, q.addr + NEXT, p.addr);
    var m2 := PutWord(m1, p.addr + NEXT, s.ring[0].addr);
    assert ring'[n] == p && ring'[n - 1] == q;
    PutWordAt(m, q.addr + NEXT, p.addr);
    PutWordAt(m1, p.addr + NEXT, s.ring[0].addr);
    NextHolds(m, q, p.addr);
    PcbSame(m1, m2, q);
    PcbSame(m, m1, p);
    NextHolds(m1, p, s.ring[0].addr);
    forall j | 0 <= j < n - 1
      ensures Holds(m2, ring'[j]) && Word(m2, ring'[j].addr + NEXT) == s.ring[j + 1].addr
    {
      assert ring'[j] == s.ring[j] && s.ring[After(n, j)] == s.ring[j + 1];
      PcbSame(m, m2, s.ring[j]);
    }
  }

  // ---------- The scheduler ----------

  /** The bytes scheduler_tick writes when the table is s. */
  function TickBytes(at: Statics, m: Mem, s: Sys, esp: uint32): (r: Mem)
    ensures |r| == |m|
  {
    if !s.running || s.ring == [] then m
    else
      var p := s.ring[0];
      var m2 := ChargeBytes(at, m, s);
      if !Expires(s) then m2
      else
        var m4 := PutWord(PutWord(m2, at.tick, 0), p.addr + ESP, esp);
        var k := Pick(s.ring);
        if k == 0 || s.ring[k].state.Dead? then m4
        else SwitchBytes(at, m4, s, k)
  }

  /** ticks_total++ and tick_count++. */
  function ChargeBytes(at: Statics, m: Mem, s: Sys): (r: Mem)
    requires s.ring != []
    ensures |r| == |m|
  {
    PutWord(PutWord(m, s.ring[0].addr + TOTAL, Wrap32(s.ring[0].total + 1)), at.tick, Wrap32(s.tick + 1))
  }

  /** Lines 58 to 60 of scheduler.c. */
  function SwitchBytes(at: Statics, m: Mem, s: Sys, k: nat): (r: Mem)
    requires k < |s.ring|
    ensures |r| == |m|
  {
    var m1 := PutWord(m, s.ring[0].addr + STATE, Code(Ready));
    var m2 := PutWord(m1, s.ring[k].addr + STATE, Code(Running));
    PutWord(m2, at.current, s.ring[k].addr)
  }

  function ChargedSys(s: Sys): Sys
    requires s.ring != []
  {
    s.(ring := Charged(s.ring), tick := Wrap32(s.tick + 1))
  }

  function SavedSys(s: Sys, esp: uint32): Sys
    requires s.ring != []
  {
    s.(ring := Charged(s.ring)[0 := Charged(s.ring)[0].(esp := esp)], tick := 0)
  }

  function SwitchedSys(s: Sys, k: nat): Sys
    requires 0 < k < |s.ring|
  {
    s.(ring := Rotate(s.ring[0 := s.ring[0].(state := Ready)][k := s.ring[k].(state := Running)], k))
  }

  lemma ChargeStored(at: Statics, m: Mem, s: Sys)
    requires Stored(at, m, s) && s.ring != []
    ensures Stored(at, ChargeBytes(at, m, s), ChargedSys(s)) && SameOffTable(at, s.ring, m, ChargeBytes(at, m, s))
  {
    hide Linked, StaticsHold, PutWord;
    var p := Charged(s.ring)[0];
    FieldStored(at, m, s, 0, TOTAL, p.total, p);
    TickStored(at, PutWord(m, p.addr + TOTAL, p.total), s.(ring := Charged(s.ring)), Wrap32(s.tick + 1));
    SameTwice(at, s.ring, Charged(s.ring), m, PutWord(m, p.addr + TOTAL, p.total), ChargeBytes(at, m, s));
  }

  /** Frames compose along rings with the same PCBs. */
  lemma SameTwice(at: Statics, r: seq<Pcb>, r1: seq<Pcb>, m: Mem, m1: Mem, m2: Mem)
    requires SameOffTable(at, r, m, m1) && SameOffTable(at, r1, m1, m2)
    requires |r| == |r1| && forall i :: 0 <= i < |r| ==> r1[i].addr == r[i].addr
    ensures SameOffTable(at, r, m, m2)
  {
    forall x | InTable(at, r1, x) ensures InTable(at, r, x) {
      if !InStatics(at, x) {
        var i :| 0 <= i < |r1| && InPcb(r1[i], x);
        assert InPcb(r[i], x);
      }
    }
  }

  lemma SaveStored(at: Statics, m: Mem, s: Sys, esp: uint32)
    requires s.ring != [] && Stored(at, m, ChargedSys(s))
    ensures var m' := PutWord(PutWord(m, at.tick, 0), s.ring[0].addr + ESP, esp);
      Stored(at, m', SavedSys(s, esp)) && SameOffTable(at, s.ring, m, m')
  {
    hide Linked, StaticsHold, PutWord;
    var s1 := ChargedSys(s).(tick := 0);
    var p := s1.ring[0].(esp := esp);
    TickStored(at, m, ChargedSys(s), 0);
    FieldStored(at, PutWord(m, at.tick, 0), s1, 0, ESP, esp, p);
    SameTwice(at, s1.ring, s1.ring, m, PutWord(m, at.tick, 0), PutWord(PutWord(m, at.tick, 0), p.addr + ESP, esp));
    SameTwice(at, s.ring, s1.ring, m, m, PutWord(PutWord(m, at.tick, 0), p.addr + ESP, esp));
  }

  lemma SwitchStored(at: Statics, m: Mem, s: Sys, k: nat)
    requires Stored(at, m, s) && 0 < k < |s.ring|
    ensures Stored(at, SwitchBytes(at, m, s, k), SwitchedSys(s, k))
    ensures SameOffTable(at, s.ring, m, SwitchBytes(at, m, s, k))
  {
    hide Linked, StaticsHold, PutWord, Rotate;
    var p, q := s.ring[0].(state := Ready), s.ring[k].(state := Running);
    var s1 := s.(ring := s.ring[0 := p]);
    var s2 := s1.(ring := s1.ring[k := q]);
    var m1 := PutWord(m, p.addr + STATE, Code(Ready));
    var m2 := PutWord(m1, q.addr + STATE, Code(Running));
    FieldStored(at, m, s, 0, STATE, Code(Ready), p);
    FieldStored(at, m1, s1, k, STATE, Code(Running), q);
    CurrentStored(at, m2, s2, k);
    SameTwice(at, s.ring, s1.ring, m, m1, m2);
    SameTwice(at, s.ring, s2.ring, m, m2, SwitchBytes(at, m, s, k));
  }

  /** scheduler_tick on bytes is scheduler_tick on the ring. */
  lemma TickBytesStored(at: Statics, m: Mem, s: Sys, esp: uint32)
    requires Stored(at, m, s)
    ensures Stored(at, TickBytes(at, m, s, esp), Tick(s, esp).0)
    ensures SameOffTable(at, s.ring, m, TickBytes(at, m, s, esp))
  {
    hide Stored, PutWord, Rotate, Pick, ChargeBytes, SwitchBytes, SameOffTable;
    SameRefl(at, s.ring, m);
    if s.running && s.ring != [] {
      var m2 := ChargeBytes(at, m, s);
      ChargeStored(at, m, s);
      if Expires(s) {
        var m4 := PutWord(PutWord(m2, at.tick, 0), s.ring[0].addr + ESP, esp);
        var s4 := SavedSys(s, esp);
        SaveStored(at, m2, s, esp);
        SameTwice(at, s.ring, s.ring, m, m2, m4);
        PickSaved(s.ring, esp);
        var k := Pick(s.ring);
        if k != 0 && !s.ring[k].state.Dead? {
          SwitchStored(at, m4, s4, k);
          SwitchSame(at, m4, s, s4, k);
          SameTwice(at, s.ring, s4.ring, m, m4, SwitchBytes(at, m4, s4, k));
        }
      }
    }
  }

  lemma SameRefl(at: Statics, ring: seq<Pcb>, m: Mem)
    ensures SameOffTable(at, ring, m, m)
  {
  }

  lemma SwitchSame(at: Statics, m: Mem, s: Sys, s': Sys, k: nat)
    requires k < |s.ring| == |s'.ring| && forall i :: 0 <= i < |s.ring| ==> s.ring[i].addr == s'.ring[i].addr
    ensures SwitchBytes(at, m, s, k) == SwitchBytes(at, m, s', k)
  {
    hide PutWord;
  }

  // ---------- State changes ----------

  function SetStateBytes(m: Mem, ring: seq<Pcb>, i: nat, st: State): (r: Mem)
    requires i < |ring|
    ensures |r| == |m|
  {
    PutWord(m, ring[i].addr + STATE, Code(st))
  }

  /** The loop of process_block_others from the process at i on. */
  function BlockBytes(m: Mem, ring: seq<Pcb>, i: nat): (r: Mem)
    ensures |r| == |m|
    decreases |ring| - i
  {
    if i >= |ring| then m
    else BlockBytes(if ring[i].state.Dead? then m else SetStateBytes(m, ring, i, Blocked), ring, i + 1)
  }

  /** The bytes that process_exit, process_block, process_unblock, process_block_others and
      scheduler_start write. */
  function ControlBytes(at: Statics, m: Mem, s: Sys, e: Event): (r: Mem)
    requires Enabled(s, e)
    ensures |r| == |m|
  {
    match e
    case Start => if s.ring == [] then m else SetStateBytes(Poke(m, at.running, 1), s.ring, 0, Running)
    case Exit => if s.ring == [] then m else SetStateBytes(m, s.ring, 0, Dead)
    case Block(i) => SetStateBytes(m, s.ring, i, Blocked)
    case Unblock(i) => SetStateBytes(m, s.ring, i, Ready)
    case BlockOthers => BlockBytes(m, s.ring, 1)
    case _ => m
  }

  predicate IsControl(e: Event) {
    e.Start? || e.Exit? || e.Block? || e.Unblock? || e.BlockOthers?
  }

  lemma SetStateStored(at: Statics, m: Mem, s: Sys, i: nat, st: State)
    requires Stored(at, m, s) && i < |s.ring|
    ensures Stored(at, SetStateBytes(m, s.ring, i, st), s.(ring := SetState(s.ring, i, st)))
    ensures SameOffTable(at, s.ring, m, SetStateBytes(m, s.ring, i, st))
  {
    hide Linked, StaticsHold, PutWord;
    FieldStored(at, m, s, i, STATE, Code(st), s.ring[i].(state := st));
  }

  /** The ring once the processes from position lo up to hi have been blocked. */
  function BlockedBetween(ring: seq<Pcb>, lo: nat, hi: nat): (r: seq<Pcb>)
    ensures |r| == |ring|
  {
    seq(|ring|, j requires 0 <= j < |ring| =>
      if lo <= j < hi && !ring[j].state.Dead? then ring[j].(state := Blocked) else ring[j])
  }

  lemma BlockedEnds(ring: seq<Pcb>, i: nat)
    ensures BlockedBetween(ring, i, i) == ring
    ensures ring != [] ==> BlockedBetween(ring, 1, |ring|) == [ring[0]] + BlockAll(ring[1..])
  {
    assert BlockedBetween(ring, i, i) == ring;
    assert ring != [] ==> BlockedBetween(ring, 1, |ring|) == [ring[0]] + BlockAll(ring[1..]);
  }

  lemma {:induction false} BlockStored(at: Statics, m: Mem, s: Sys, i: nat)
    requires Stored(at, m, s) && i <= |s.ring|
    ensures Stored(at, BlockBytes(m, s.ring, i), s.(ring := BlockedBetween(s.ring, i, |s.ring|)))
    ensures SameOffTable(at, s.ring, m, BlockBytes(m, s.ring, i))
    decreases |s.ring| - i
  {
    hide Stored, SetStateBytes, SameOffTable, BlockedBetween;
    SameRefl(at, s.ring, m);
    if i == |s.ring| {
      BlockedEnds(s.ring, i);
    } else {
      var p := s.ring[i];
      var q := if p.state.Dead? then p else p.(state := Blocked);
      var m1 := if p.state.Dead? then m else SetStateBytes(m, s.ring, i, Blocked);
      var s1 := s.(ring := s.ring[i := q]);
      assert s.ring[i := p] == s.ring;
      if !p.state.Dead? {
        SetStateStored(at, m, s, i, Blocked);
      }
      BlockStored(at, m1, s1, i + 1);
      BlockSame(m1, s.ring, s1.ring, i + 1);
      SameTwice(at, s.ring, s1.ring, m, m1, BlockBytes(m1, s1.ring, i + 1));
      BlockedNext(s.ring, i, q);
    }
  }

  lemma BlockedNext(ring: seq<Pcb>, i: nat, q: Pcb)
    requires i < |ring| && q == if ring[i].state.Dead? then ring[i] else ring[i].(state := Blocked)
    ensures BlockedBetween(ring[i := q], i + 1, |ring|) == BlockedBetween(ring, i, |ring|)
  {
  }

  lemma {:induction false} BlockSame(m: Mem, r: seq<Pcb>, r1: seq<Pcb>, i: nat)
    requires |r| == |r1| && forall j :: 0 <= j < |r| ==> r1[j].addr == r[j].addr
    requires forall j :: i <= j < |r| ==> r1[j] == r[j]
    ensures BlockBytes(m, r, i) == BlockBytes(m, r1, i)
    decreases |r| - i
  {
    hide PutWord;
    if i < |r| {
      BlockSame(if r[i].state.Dead? then m else SetStateBytes(m, r, i, Blocked), r, r1, i + 1);
    }
  }

  /** Each control operation on bytes is the operation on the ring. */
  lemma ControlStored(at: Statics, m: Mem, s: Sys, e: Event)
    requires Stored(at, m, s) && Enabled(s, e) && IsControl(e)
    ensures Stored(at, ControlBytes(at, m, s, e), Apply(s, e))
    ensures SameOffTable(at, s.ring, m, ControlBytes(at, m, s, e))
  {
    hide Stored, SetStateBytes, SameOffTable;
    SameRefl(at, s.ring, m);
    match e
    case Start =>
      if s.ring != [] {
        var m1 := Poke(m, at.running, 1);
        RunningStored(at, m, s);
        SetStateStored(at, m1, s.(running := true), 0, Running);
        SameTwice(at, s.ring, s.ring, m, m1, SetStateBytes(m1, s.ring, 0, Running));
        assert Apply(s, e) == s.(running := true).(ring := SetState(s.ring, 0, Running));
      }
    case Exit =>
      if s.ring != [] {
        SetStateStored(at, m, s, 0, Dead);
      }
    case Block(i) => SetStateStored(at, m, s, i, Blocked);
    case Unblock(i) => SetStateStored(at, m, s, i, Ready);
    case BlockOthers =>
      if s.ring != [] {
        BlockedEnds(s.ring, 1);
        BlockStored(at, m, s, 1);
      }
  }

  // ---------- Initialisation ----------

  /** process_init and scheduler_init. */
  function InitTable(at: Statics, m: Mem): (r: Mem)
    ensures |r| == |m|
  {
    Poke(PutWord(PutWord(PutWord(m, at.current, 0), at.nextPid, 1), at.tick, 0), at.running, 0)
  }

  lemma InitStored(at: Statics, m: Mem)
    requires |m| >= KERNEL_END && Word(m, at.heapStart) == KERNEL_END
    ensures Stored(at, InitTable(at, m), BOOT) && SameOffTable(at, [], m, InitTable(at, m))
  {
    hide Word, PutWord;
    var m1 := PutWord(m, at.current, 0);
    var m2 := PutWord(m1, at.nextPid, 1);
    var m3 := PutWord(m2, at.tick, 0);
    var m4 := Poke(m3, at.running, 0);
    PutWordAt(m, at.current, 0);
    PutWordAt(m1, at.nextPid, 1);
    PutWordAt(m2, at.tick, 0);
    WordSame(m3, m4, at.current);
    WordSame(m3, m4, at.nextPid);
    WordSame(m3, m4, at.tick);
    WordSame(m3, m4, at.heapStart);
  }

  // ---------- In addresses ----------

  /** Where memory that represents s holds process i: pid at 0, state at 4 as 0 for READY, 1 for RUNNING,
      2 for BLOCKED and 3 for DEAD, priority at 8, esp at 12, stack at 16, ticks_total at 52, ticks_quantum
      at 56, and at 60 the address of the process after it, the first after the last. */
  lemma PcbFields(at: Statics, m: Mem, s: Sys, i: nat)
    requires Stored(at, m, s) && i < |s.ring|
    ensures var p, a := s.ring[i], s.ring[i].addr;
      && Word(m, a) == p.pid
      && Word(m, a + 4) == (match p.state case Ready => 0 case Running => 1 case Blocked => 2 case Dead => 3)
      && Word(m, a + 8) == p.priority && Word(m, a + 12) == p.esp && Word(m, a + 16) == p.stack
      && Word(m, a + 52) == p.total && Word(m, a + 56) == p.quantum
      && Word(m, a + 60) == s.ring[if i + 1 < |s.ring| then i + 1 else 0].addr
  {
    hide Word;
    assert Holds(m, s.ring[i]);
    assert Word(m, s.ring[i].addr + NEXT) == s.ring[After(|s.ring|, i)].addr;
  }
}
