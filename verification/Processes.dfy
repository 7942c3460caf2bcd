/** process_create: where the heap and the process table meet. */
module Processes {
  import opened Bytes
  import opened HeapList
  import opened HeapBytes
  import opened HeapModel
  import opened Frames
  import opened Sched
  import opened Pcbs

  const STACK_SIZE := 16384

  /** Every process has a live PCB block and a live stack block, all different. */
  ghost predicate OwnBlocks(bs: Blocks, ring: seq<Pcb>) {
    && (forall i :: 0 <= i < |ring| ==> OwnsBetween(bs, ring[i].addr, PCB_SIZE, PCB_SIZE + 16))
    && (forall i :: 0 <= i < |ring| ==> OwnsBetween(bs, ring[i].stack, STACK_SIZE, STACK_SIZE + 16))
    && (forall i, j :: 0 <= i < |ring| && 0 <= j < |ring| && i != j ==>
          ring[i].addr != ring[j].addr && ring[i].stack != ring[j].stack)
    && (forall i, j :: 0 <= i < |ring| && 0 <= j < |ring| ==> ring[i].addr != ring[j].stack)
  }

  /** Heap and process table are well formed on the same memory, and meet in the blocks of the
      processes. */
  ghost predicate Consistent(at: Statics, h: HeapState, s: Sys) {
    Good(h) && OwnBlocks(h.blocks, s.ring) && Stored(at, h.mem, s)
  }

  // ---------- process_create ----------

  /** PCB fields, initial frame and saved stack pointer: what process_create writes before it inserts
      the PCB. The stack field is there already. */
  function ReadyBytes(at: Statics, m: Mem, s: Sys, pcb: uint32, stack: uint32,
                      entry: uint32, name: seq<byte>, priority: uint32): (r: Mem)
    ensures |r| == |m|
  {
    var top := stack + STACK_SIZE;
    var m1 := FillBytes(at, m, s, pcb, name, priority);
    var m2 := PushAll(m1, top, InitialWords(entry));
    PutWord(m2, pcb + ESP, Wrap32(top - FRAME_BYTES))
  }

  function BuildBytes(at: Statics, m: Mem, s: Sys, pcb: uint32, stack: uint32,
                      entry: uint32, name: seq<byte>, priority: uint32): (r: Mem)
    ensures |r| == |m|
  {
    InsertBytes(at, ReadyBytes(at, m, s, pcb, stack, entry, name, priority), s, pcb)
  }

  /** Lines 18 to 22 of process.c: the heap, the PCB and the stack, or null twice. */
  ghost function NewBlocks(h: HeapState): (HeapState, uint32, uint32)
    requires Good(h)
  {
    PcbLive(h);
    var (h1, pcb) := Kmalloc(h, PCB_SIZE);
    if pcb == 0 then (h1, 0, 0)
    else
      var (h2, stack) := Kmalloc(h1, STACK_SIZE);
      var h3 := HeapState(PutWord(h2.mem, pcb + STACK, stack), h2.blocks);
      if stack == 0 then (Kfree(h3, pcb), 0, 0) else (h3, pcb, stack)
  }

  /** The heap and memory, the process table and the new PCB's address; address 0 means failure. */
  ghost function CreateProcess(at: Statics, h: HeapState, s: Sys, entry: uint32, name: seq<byte>, priority: uint32)
    : (HeapState, Sys, uint32)
    requires Good(h)
  {
    var (h1, pcb, stack) := NewBlocks(h);
    if pcb == 0 then (h1, s, 0)
    else
      (HeapState(BuildBytes(at, h1.mem, s, pcb, stack, entry, name, priority), h1.blocks),
       Apply(s, Create(pcb, priority, Wrap32(stack + STACK_SIZE - FRAME_BYTES), stack)), pcb)
  }

  /** When the stack cannot be allocated, the PCB just allocated can be freed. */
  lemma PcbLive(h: HeapState)
    requires Good(h)
    ensures var (h1, pcb) := Kmalloc(h, PCB_SIZE);
      pcb == 0 || Live(Kmalloc(h1, STACK_SIZE).0.blocks, pcb)
  {
    hide Kmalloc, Live, Owns, Addr, Good;
    KmallocCorrect(h, PCB_SIZE);
    var (h1, pcb) := Kmalloc(h, PCB_SIZE);
    if pcb != 0 {
      KmallocCorrect(h1, STACK_SIZE);
      OwnedStaysBetween(h1, Kmalloc(h1, STACK_SIZE).0, pcb, RoundUp(PCB_SIZE), RoundUp(PCB_SIZE) + 16);
      BetweenLive(Kmalloc(h1, STACK_SIZE).0.blocks, pcb, RoundUp(PCB_SIZE), RoundUp(PCB_SIZE) + 16);
    }
  }

  lemma BetweenLive(bs: Blocks, p: int, lo: int, hi: int)
    requires OwnsBetween(bs, p, lo, hi)
    ensures Live(bs, p)
  {
    var s :| lo <= s <= hi && Owns(bs, p, s);
    var k :| OwnsAt(bs, p, s, k);
    assert OwnsAt(bs, p, s, k);
  }

  /** The heap has gone from h to h' without touching a live payload or anything outside it. */
  ghost predicate KeepsPayloads(h: HeapState, h': HeapState) {
    && SameOutside(h.mem, h'.mem, HEAP_START, HEAP_END)
    && forall q, t :: Owns(h.blocks, q, t) ==> Owns(h'.blocks, q, t) && SamePayload(h, h', q, t)
  }

  lemma KeepsPayloadsTwice(h: HeapState, h1: HeapState, h2: HeapState)
    requires KeepsPayloads(h, h1) && KeepsPayloads(h1, h2)
    ensures KeepsPayloads(h, h2)
  {
    hide Owns;
    forall q, t | Owns(h.blocks, q, t) ensures Owns(h2.blocks, q, t) && SamePayload(h, h2, q, t) {
      assert SamePayload(h, h1, q, t) && SamePayload(h1, h2, q, t);
    }
  }

  lemma KmallocKeeps(h: HeapState, size: uint32)
    requires Good(h)
    ensures Good(Kmalloc(h, size).0) && KeepsPayloads(h, Kmalloc(h, size).0)
  {
    hide Owns, Kmalloc, Good, Addr, OwnsBetween;
    KmallocCorrect(h, size);
    KmallocInside(h, size);
  }

  /** A failed creation leaves table, block list, every live payload and all memory outside the heap
      exactly as before. */
  lemma CreateFails(at: Statics, h: HeapState, s: Sys, entry: uint32, name: seq<byte>, priority: uint32)
    requires Good(h) && CreateProcess(at, h, s, entry, name, priority).2 == 0
    ensures var (h', s', _) := CreateProcess(at, h, s, entry, name, priority);
      && Good(h') && s' == s && h'.blocks == h.blocks && KeepsPayloads(h, h')
  {
    hide Owns, Kmalloc, Kfree, Good, Addr, OwnsBetween, KeepsPayloads, PutWord, BuildBytes;
    KmallocKeeps(h, PCB_SIZE);
    KmallocCorrect(h, PCB_SIZE);
    var (h1, pcb) := Kmalloc(h, PCB_SIZE);
    if pcb != 0 {
      KmallocCorrect(h1, STACK_SIZE);
      Rollback(h, pcb);
    }
  }

  /** kfree(proc) after the store of the null stack pointer into the PCB. */
  lemma Rollback(h: HeapState, pcb: uint32)
    requires Good(h) && pcb == Kmalloc(h, PCB_SIZE).1 && pcb != 0
    ensures var h1 := Kmalloc(h, PCB_SIZE).0;
      var h2 := HeapState(PutWord(h1.mem, pcb + STACK, 0), h1.blocks);
      && Live(h1.blocks, pcb)
      && Good(Kfree(h2, pcb)) && Kfree(h2, pcb).blocks == h.blocks && KeepsPayloads(h, Kfree(h2, pcb))
  {
    hide Owns, Kmalloc, Good, Addr, PutWord, FreeBytes, Free;
    KmallocCorrect(h, PCB_SIZE);
    KmallocInside(h, PCB_SIZE);
    KfreeKmalloc(h, PCB_SIZE);
    var h1 := Kmalloc(h, PCB_SIZE).0;
    var h2 := HeapState(PutWord(h1.mem, pcb + STACK, 0), h1.blocks);
    PutWordOwned(h1, pcb, pcb + STACK, 0);
    KfreeCorrect(h2, pcb);
    KfreeInside(h2, pcb);
    forall q, t | Owns(h.blocks, q, t) ensures SamePayload(h, Kfree(h2, pcb), q, t) {
      OwnsLive(h.blocks, q, t);
      assert SamePayload(h, h1, q, t);
      assert SameOn(h1.mem, h2.mem, q, q + t);
      assert Owns(Kfree(h2, pcb).blocks, q, t);
      assert SamePayload(h2, Kfree(h2, pcb), q, t);
    }
  }

  /** A store into a live PCB block. */
  lemma PutWordOwned(h: HeapState, pcb: int, a: int, v: uint32)
    requires Good(h) && OwnsBetween(h.blocks, pcb, PCB_SIZE, PCB_SIZE + 16) && pcb <= a <= pcb + NEXT
    ensures Good(HeapState(PutWord(h.mem, a, v), h.blocks))
    ensures SameOutside(h.mem, PutWord(h.mem, a, v), HEAP_START, HEAP_END)
    ensures forall q, t :: Owns(h.blocks, q, t) && q != pcb ==> SameOn(h.mem, PutWord(h.mem, a, v), q, q + t)
  {
    hide Owns, Addr, PutWord, Good;
    var s :| PCB_SIZE <= s <= PCB_SIZE + 16 && Owns(h.blocks, pcb, s);
    GoodTiles(h);
    PayloadsDisjoint(h.blocks, pcb, s, pcb, s);
    PutWordSpec(h.mem, a, v);
    PayloadWrite(h, PutWord(h.mem, a, v), pcb, s, a, a + 4);
  }

  lemma GoodTiles(h: HeapState)
    requires Good(h)
    ensures Tiles(h.blocks) && |h.mem| == RAM_SIZE
  {
  }

  lemma OwnsLive(bs: Blocks, q: int, t: int)
    requires Owns(bs, q, t)
    ensures Live(bs, q)
  {
    hide Addr;
    var k :| OwnsAt(bs, q, t, k);
    assert OwnsAt(bs, q, t, k);
  }

  lemma LiveStays(h: HeapState, h1: HeapState, q: int)
    requires forall q, t :: Owns(h.blocks, q, t) ==> Owns(h1.blocks, q, t)
    ensures Live(h.blocks, q) ==> Live(h1.blocks, q)
  {
    hide Addr;
    if Live(h.blocks, q) {
      var k, t :| OwnsAt(h.blocks, q, t, k);
      assert Owns(h.blocks, q, t);
      OwnsLive(h1.blocks, q, t);
    }
  }

  lemma OwnedStaysBetween(h: HeapState, h': HeapState, p: int, lo: int, hi: int)
    requires OwnsBetween(h.blocks, p, lo, hi)
    requires forall q, t :: Owns(h.blocks, q, t) ==> Owns(h'.blocks, q, t)
    ensures OwnsBetween(h'.blocks, p, lo, hi)
  {
    hide Owns;
    var s :| lo <= s <= hi && Owns(h.blocks, p, s);
    assert Owns(h'.blocks, p, s);
  }

  lemma StackTop(h: HeapState, stack: int)
    requires Good(h) && OwnsBetween(h.blocks, stack, STACK_SIZE, STACK_SIZE + 16)
    ensures HEAP_START < stack && stack + STACK_SIZE <= HEAP_END
  {
    hide Owns, Addr;
    var s :| STACK_SIZE <= s <= STACK_SIZE + 16 && Owns(h.blocks, stack, s);
    PayloadsDisjoint(h.blocks, stack, s, stack, s);
  }

  // ---------- Processes and memory ----------

  /** The blocks of processes are clear of headers, of kernel memory and of each other. */
  lemma BlockInside(h: HeapState, p: int, size: int)
    requires Good(h) && OwnsBetween(h.blocks, p, size, size + 16)
    ensures HEAP_START < p && p + size <= HEAP_END <= |h.mem|
    ensures forall x :: p <= x < p + size ==> !InHeader(h.blocks, x)
  {
    hide Owns, Addr, InHeader;
    var s :| size <= s <= size + 16 && Owns(h.blocks, p, s);
    PayloadsDisjoint(h.blocks, p, s, p, s);
  }

  lemma BlocksClear(h: HeapState, p: int, size: int, q: int, size': int)
    requires Good(h) && OwnsBetween(h.blocks, p, size, size + 16) && OwnsBetween(h.blocks, q, size', size' + 16)
    requires p != q
    ensures Clear(p, size, q, size')
  {
    hide Owns, Addr, InHeader;
    var s :| size <= s <= size + 16 && Owns(h.blocks, p, s);
    var t :| size' <= t <= size' + 16 && Owns(h.blocks, q, t);
    PayloadsDisjoint(h.blocks, p, s, q, t);
  }

  lemma OwnBlocksSpaced(h: HeapState, ring: seq<Pcb>)
    requires Good(h) && OwnBlocks(h.blocks, ring)
    ensures Spaced(h.mem, ring)
  {
    hide Good, OwnsBetween;
    forall i | 0 <= i < |ring| ensures KERNEL_END <= ring[i].addr && ring[i].addr + PCB_SIZE <= |h.mem| {
      BlockInside(h, ring[i].addr, PCB_SIZE);
    }
    forall i, j | 0 <= i < |ring| && 0 <= j < |ring| && i != j
      ensures Clear(ring[i].addr, PCB_SIZE, ring[j].addr, PCB_SIZE)
    {
      BlocksClear(h, ring[i].addr, PCB_SIZE, ring[j].addr, PCB_SIZE);
    }
  }

  /** No stack shares a byte with the process table. */
  lemma StackOffTable(at: Statics, h: HeapState, ring: seq<Pcb>, i: nat)
    requires Good(h) && OwnBlocks(h.blocks, ring) && i < |ring|
    ensures HEAP_START < ring[i].stack && ring[i].stack + STACK_SIZE <= HEAP_END <= |h.mem|
    ensures forall x :: ring[i].stack <= x < ring[i].stack + STACK_SIZE ==> !InTable(at, ring, x)
  {
    hide Good, OwnsBetween;
    BlockInside(h, ring[i].stack, STACK_SIZE);
    forall j | 0 <= j < |ring| ensures Clear(ring[i].stack, STACK_SIZE, ring[j].addr, PCB_SIZE) {
      BlocksClear(h, ring[i].stack, STACK_SIZE, ring[j].addr, PCB_SIZE);
    }
  }

  lemma StacksClear(h: HeapState, ring: seq<Pcb>, i: nat, j: nat)
    requires Good(h) && OwnBlocks(h.blocks, ring) && i < |ring| && j < |ring| && i != j
    ensures Clear(ring[i].stack, STACK_SIZE, ring[j].stack, STACK_SIZE)
  {
    hide Good, OwnsBetween;
    BlocksClear(h, ring[i].stack, STACK_SIZE, ring[j].stack, STACK_SIZE);
  }

  lemma HeadersOffTable(at: Statics, h: HeapState, ring: seq<Pcb>)
    requires Good(h) && OwnBlocks(h.blocks, ring)
    ensures forall x :: InHeader(h.blocks, x) ==> !InTable(at, ring, x)
  {
    hide Good, OwnsBetween, InHeader;
    forall x | InHeader(h.blocks, x) ensures !InTable(at, ring, x) {
      HeaderInside(h, x);
      forall j | 0 <= j < |ring| ensures !InPcb(ring[j], x) {
        BlockInside(h, ring[j].addr, PCB_SIZE);
      }
    }
  }

  lemma HeaderInside(h: HeapState, x: int)
    requires Good(h) && InHeader(h.blocks, x)
    ensures HEAP_START <= x < HEAP_END
  {
    hide Addr;
    AllInside(h.blocks);
  }

  /** Writing the process table leaves the heap well formed and every stack alone. */
  lemma TableWrite(at: Statics, h: HeapState, m': Mem, ring: seq<Pcb>)
    requires Good(h) && OwnBlocks(h.blocks, ring) && SameOffTable(at, ring, h.mem, m')
    ensures Good(HeapState(m', h.blocks))
    ensures forall i :: 0 <= i < |ring| ==> SameOn(h.mem, m', ring[i].stack, ring[i].stack + STACK_SIZE)
  {
    hide Good, OwnBlocks, InHeader, InTable;
    HeadersOffTable(at, h, ring);
    SameHeadersGood(h, m');
    forall i | 0 <= i < |ring| ensures SameOn(h.mem, m', ring[i].stack, ring[i].stack + STACK_SIZE) {
      StackOffTable(at, h, ring, i);
    }
  }

  lemma BetweenSame(h: HeapState, h': HeapState, p: int, size: int)
    requires OwnsBetween(h.blocks, p, size, size + 16) && KeepsPayloads(h, h')
    ensures OwnsBetween(h'.blocks, p, size, size + 16) && SameOn(h.mem, h'.mem, p, p + size)
  {
    hide Owns;
    var s :| size <= s <= size + 16 && Owns(h.blocks, p, s);
    assert SamePayload(h, h', p, s);
    assert Owns(h'.blocks, p, s);
  }

  /** The heap's work leaves processes and their table as they are. */
  lemma ConsistentKept(at: Statics, h: HeapState, h': HeapState, s: Sys)
    requires Consistent(at, h, s) && Good(h') && KeepsPayloads(h, h')
    ensures Consistent(at, h', s)
    ensures forall i :: 0 <= i < |s.ring| ==> SameOn(h.mem, h'.mem, s.ring[i].stack, s.ring[i].stack + STACK_SIZE)
  {
    hide OwnsBetween, Good, Stored, Owns;
    var ring := s.ring;
    forall i | 0 <= i < |ring|
      ensures OwnsBetween(h'.blocks, ring[i].addr, PCB_SIZE, PCB_SIZE + 16)
      ensures SameOn(h.mem, h'.mem, ring[i].addr, ring[i].addr + PCB_SIZE)
      ensures OwnsBetween(h'.blocks, ring[i].stack, STACK_SIZE, STACK_SIZE + 16)
      ensures SameOn(h.mem, h'.mem, ring[i].stack, ring[i].stack + STACK_SIZE)
    {
      BetweenSame(h, h', ring[i].addr, PCB_SIZE);
      BetweenSame(h, h', ring[i].stack, STACK_SIZE);
    }
    StoredSame(at, h.mem, h'.mem, s);
  }

  /** A new process's blocks differ from everybody else's because they were not live. */
  lemma OwnBlocksAppend(bs: Blocks, bs': Blocks, ring: seq<Pcb>, p: Pcb)
    requires OwnBlocks(bs, ring) && OwnBlocks(bs', ring)
    requires !Live(bs, p.addr) && !Live(bs, p.stack) && p.addr != p.stack
    requires OwnsBetween(bs', p.addr, PCB_SIZE, PCB_SIZE + 16)
    requires OwnsBetween(bs', p.stack, STACK_SIZE, STACK_SIZE + 16)
    ensures OwnBlocks(bs', ring + [p])
  {
    hide OwnsBetween, Live;
    forall i | 0 <= i < |ring|
      ensures Live(bs, ring[i].addr) && Live(bs, ring[i].stack)
    {
      BetweenLive(bs, ring[i].addr, PCB_SIZE, PCB_SIZE + 16);
      BetweenLive(bs, ring[i].stack, STACK_SIZE, STACK_SIZE + 16);
    }
  }

  // ---------- A successful creation ----------

  /** Block p.stack is the stack of a process that starts at entry when its frame is restored. */
  ghost predicate FreshStack(m: Mem, p: Pcb, entry: uint32) {
    && p.esp + FRAME_BYTES == p.stack + STACK_SIZE
    && p.stack + STACK_SIZE <= HEAP_END
    && Restore(m, p.esp) == InitialCpu(entry, p.stack + STACK_SIZE)
  }

  /** The PCB at p.addr carries the label of name. */
  ghost predicate Named(m: Mem, p: Pcb, name: seq<byte>) {
    forall i :: 0 <= i < |Label(name)| ==> Byte(m, p.addr + NAME + i) == Label(name)[i]
  }

  /** The two allocations of a successful creation. */
  lemma CreateBlocks(at: Statics, h: HeapState, s: Sys, entry: uint32, name: seq<byte>, priority: uint32)
    returns (h2: HeapState, p: Pcb)
    requires Good(h) && CreateProcess(at, h, s, entry, name, priority).2 != 0
    ensures p == NewPcb(p.addr, s.nextPid, priority, p.esp, p.stack)
    ensures p.stack + STACK_SIZE <= HEAP_END && p.esp + FRAME_BYTES == p.stack + STACK_SIZE
    ensures NewBlocks(h) == (HeapState(PutWord(h2.mem, p.addr + STACK, p.stack), h2.blocks), p.addr, p.stack)
    ensures CreateProcess(at, h, s, entry, name, priority) ==
      (HeapState(BuildBytes(at, PutWord(h2.mem, p.addr + STACK, p.stack), s, p.addr, p.stack, entry, name, priority), h2.blocks),
       s.(ring := s.ring + [p], nextPid := Wrap32(s.nextPid + 1)), p.addr)
    ensures Good(h2) && KeepsPayloads(h, h2)
    ensures OwnsBetween(h2.blocks, p.addr, PCB_SIZE, PCB_SIZE + 16)
    ensures OwnsBetween(h2.blocks, p.stack, STACK_SIZE, STACK_SIZE + 16)
    ensures !Live(h.blocks, p.addr) && !Live(h.blocks, p.stack) && p.addr != p.stack
  {
    hide Kmalloc, Addr, Owns, Live, BuildBytes, PutWord, Good, KeepsPayloads, OwnsBetween;
    KmallocCorrect(h, PCB_SIZE);
    KmallocKeeps(h, PCB_SIZE);
    var pcb: uint32, stack: uint32;
    var r1 := Kmalloc(h, PCB_SIZE);
    var h1;
    h1, pcb := r1.0, r1.1;
    KmallocCorrect(h1, STACK_SIZE);
    KmallocKeeps(h1, STACK_SIZE);
    var r2 := Kmalloc(h1, STACK_SIZE);
    h2, stack := r2.0, r2.1;
    assert RoundUp(PCB_SIZE) == PCB_SIZE && RoundUp(STACK_SIZE) == STACK_SIZE;
    OwnedStaysBetween(h1, h2, pcb, PCB_SIZE, PCB_SIZE + 16);
    StackTop(h2, stack);
    BetweenLive(h1.blocks, pcb, PCB_SIZE, PCB_SIZE + 16);
    LiveStays(h, h1, stack);
    KeepsPayloadsTwice(h, h1, h2);
    p := NewPcb(pcb, s.nextPid, priority, stack + STACK_SIZE - FRAME_BYTES, stack);
  }

  /** The bytes the filling of a new PCB and its stack may touch. */
  ghost predicate InNew(at: Statics, p: Pcb, x: int) {
    InPcb(p, x) || p.stack <= x < p.stack + STACK_SIZE || at.nextPid <= x < at.nextPid + 4
  }

  /** PCB and frame before insertion: p is stored, its stack is fresh, and nothing else is touched. */
  lemma FilledBytes(at: Statics, m: Mem, s: Sys, p: Pcb, entry: uint32, name: seq<byte>, priority: uint32)
    requires p == NewPcb(p.addr, s.nextPid, priority, p.esp, p.stack) && p.esp + FRAME_BYTES == p.stack + STACK_SIZE
    requires KERNEL_END <= p.addr && p.addr + PCB_SIZE <= |m|
    requires KERNEL_END <= p.stack && p.stack + STACK_SIZE <= HEAP_END <= |m|
    requires Clear(p.addr, PCB_SIZE, p.stack, STACK_SIZE)
    ensures var m3 := ReadyBytes(at, PutWord(m, p.addr + STACK, p.stack), s, p.addr, p.stack, entry, name, priority);
      && Holds(m3, p) && FreshStack(m3, p, entry) && Named(m3, p, name)
      && Word(m3, at.nextPid) == Wrap32(s.nextPid + 1)
      && forall x :: !InNew(at, p, x) ==> Byte(m3, x) == Byte(m, x)
  {
    hide Word, PutWord, PushAll, FillBytes, Holds, Restore, InsertBytes, Label;
    var top := p.stack + STACK_SIZE;
    var m0 := PutWord(m, p.addr + STACK, p.stack);
    var m1 := FillBytes(at, m0, s, p.addr, name, priority);
    var m2 := PushAll(m1, top, InitialWords(entry));
    var m3 := PutWord(m2, p.addr + ESP, p.esp);
    PutWordAt(m, p.addr + STACK, p.stack);
    var q := p.(esp := Word(m1, p.addr + ESP));
    FillHolds(at, m0, s, p.addr, name, priority, q.esp, p.stack);
    FillNamed(at, m0, s, p.addr, name, priority);
    PushAllOutside(m1, top, InitialWords(entry));
    RestoreInitial(m1, entry, top);
    PcbSame(m1, m2, q);
    WordSame(m1, m3, at.nextPid) by { PutWordAt(m2, p.addr + ESP, p.esp); }
    FieldHolds(m2, q, p, ESP, p.esp);
    PutWordAt(m2, p.addr + ESP, p.esp);
    RestoreSame(m2, m3, p.esp);
  }

  lemma FillNamed(at: Statics, m: Mem, s: Sys, a: uint32, name: seq<byte>, priority: uint32)
    requires KERNEL_END <= a && a + PCB_SIZE <= |m|
    ensures var m' := FillBytes(at, m, s, a, name, priority);
      forall i :: 0 <= i < |Label(name)| ==> Byte(m', a + NAME + i) == Label(name)[i]
  {
    hide PutWord, PutBytes, Label;
    var m6 := PutWord(PutWord(PutWord(PutWord(PutWord(PutWord(m, a + PID, s.nextPid),
      at.nextPid, Wrap32(s.nextPid + 1)), a + STATE, Code(Ready)), a + PRIORITY, priority), a + TOTAL, 0),
      a + QUANTUM, Quantum(priority));
    PutBytesAt(m6, a + NAME, Label(name));
  }

  lemma {:induction false} PutBytesAt(m: Mem, a: int, bs: seq<byte>)
    requires 0 <= a && a + |bs| <= |m|
    ensures forall i :: 0 <= i < |bs| ==> Byte(PutBytes(m, a, bs), a + i) == bs[i]
    decreases |bs|
  {
    if bs != [] {
      var m1 := Poke(m, a, bs[0]);
      PutBytesAt(m1, a + 1, bs[1..]);
      PutBytesOutside(m1, a + 1, bs[1..]);
      forall i | 0 <= i < |bs| ensures Byte(PutBytes(m, a, bs), a + i) == bs[i] {
        if i > 0 {
          assert Byte(PutBytes(m1, a + 1, bs[1..]), a + 1 + (i - 1)) == bs[1..][i - 1];
        }
      }
    }
  }

  /** The old processes and the statics but next_pid are still stored before insertion. */
  lemma FilledStored(at: Statics, m: Mem, m3: Mem, s: Sys, p: Pcb)
    requires Stored(at, m, s) && |m3| == |m| && Spaced(m, s.ring + [p])
    requires KERNEL_END <= p.stack
    requires forall i :: 0 <= i < |s.ring| ==> Clear(p.stack, STACK_SIZE, s.ring[i].addr, PCB_SIZE)
    requires forall x :: !InNew(at, p, x) ==> Byte(m3, x) == Byte(m, x)
    requires Word(m3, at.nextPid) == Wrap32(s.nextPid + 1)
    ensures Stored(at, m3, s.(nextPid := Wrap32(s.nextPid + 1)))
  {
    hide Word, Holds;
    var ring, n := s.ring, |s.ring|;
    assert (ring + [p])[n] == p;
    forall i | 0 <= i < n
      ensures Holds(m3, ring[i]) && Word(m3, ring[i].addr + NEXT) == Word(m, ring[i].addr + NEXT)
    {
      assert (ring + [p])[i] == ring[i];
      PcbSame(m, m3, ring[i]);
    }
    WordSame(m, m3, at.current);
    WordSame(m, m3, at.tick);
    WordSame(m, m3, at.heapStart);
  }

  /** q is not the PCB of the last process, whose next word insertion changes. */
  predicate NotTail(ring: seq<Pcb>, q: int) {
    ring == [] || q != ring[|ring| - 1].addr
  }

  /** A successful creation appends one READY process with the next pid, gives it two new disjoint
      heap blocks, its name and a stack from which it starts at entry. Of the old live payloads only
      the last process's PCB changes. */
  lemma CreateSucceeds(at: Statics, h: HeapState, s: Sys, entry: uint32, name: seq<byte>, priority: uint32)
    returns (p: Pcb)
    requires Consistent(at, h, s) && CreateProcess(at, h, s, entry, name, priority).2 != 0
    ensures p == NewPcb(p.addr, s.nextPid, priority, p.esp, p.stack)
    ensures CreateProcess(at, h, s, entry, name, priority).1 == s.(ring := s.ring + [p], nextPid := Wrap32(s.nextPid + 1))
    ensures CreateProcess(at, h, s, entry, name, priority).2 == p.addr
    ensures var (h', s', _) := CreateProcess(at, h, s, entry, name, priority);
      && Consistent(at, h', s') && FreshStack(h'.mem, p, entry) && Named(h'.mem, p, name)
      && (forall q, t :: Owns(h.blocks, q, t) ==> Owns(h'.blocks, q, t))
      && (forall q, t :: Owns(h.blocks, q, t) && NotTail(s.ring, q) ==> SamePayload(h, h', q, t))
    ensures !Live(h.blocks, p.addr) && !Live(h.blocks, p.stack)
  {
    hide Owns, Live, Restore, ReadyBytes, PutWord, Good, OwnsBetween, Stored, Holds, InsertBytes, CreateProcess, Spaced,
      FreshStack, Named, KeepsPayloads, InLinks, InNew, NewBlocks;
    var h2;
    h2, p := CreateReady(at, h, s, entry, name, priority);
    var m3 := ReadyBytes(at, PutWord(h2.mem, p.addr + STACK, p.stack), s, p.addr, p.stack, entry, name, priority);
    var s1 := s.(nextPid := Wrap32(s.nextPid + 1));
    NewBlocksClear(h2, s, p);
    InsertStored(at, m3, s1, p);
    SameInsert(at, m3, s, s1, p.addr);
    var h' := HeapState(InsertBytes(at, m3, s1, p.addr), h2.blocks);
    BuiltGood(at, h2, m3, h'.mem, s, p);
    InsertKeepsNew(at, m3, s, p, entry, name);
    BuiltPayloads(at, h, h2, m3, s, p);
  }

  /** A successful creation up to the insertion. */
  lemma CreateReady(at: Statics, h: HeapState, s: Sys, entry: uint32, name: seq<byte>, priority: uint32)
    returns (h2: HeapState, p: Pcb)
    requires Consistent(at, h, s) && CreateProcess(at, h, s, entry, name, priority).2 != 0
    ensures p == NewPcb(p.addr, s.nextPid, priority, p.esp, p.stack)
    ensures NewBlocks(h) == (HeapState(PutWord(h2.mem, p.addr + STACK, p.stack), h2.blocks), p.addr, p.stack)
    ensures CreateProcess(at, h, s, entry, name, priority) ==
      (HeapState(BuildBytes(at, PutWord(h2.mem, p.addr + STACK, p.stack), s, p.addr, p.stack, entry, name, priority), h2.blocks),
       s.(ring := s.ring + [p], nextPid := Wrap32(s.nextPid + 1)), p.addr)
    ensures Good(h2) && KeepsPayloads(h, h2) && Consistent(at, h2, s) && OwnBlocks(h2.blocks, s.ring + [p])
    ensures !Live(h.blocks, p.addr) && !Live(h.blocks, p.stack) && p.addr != p.stack
    ensures var m3 := ReadyBytes(at, PutWord(h2.mem, p.addr + STACK, p.stack), s, p.addr, p.stack, entry, name, priority);
      && Stored(at, m3, s.(nextPid := Wrap32(s.nextPid + 1))) && Spaced(m3, s.ring + [p])
      && Holds(m3, p) && FreshStack(m3, p, entry) && Named(m3, p, name)
      && forall x :: !InNew(at, p, x) ==> Byte(m3, x) == Byte(h2.mem, x)
  {
    hide Owns, Live, Restore, ReadyBytes, BuildBytes, PutWord, Good, OwnsBetween, Stored, Holds, CreateProcess, Spaced,
      FreshStack, Named, KeepsPayloads, InNew, NewBlocks;
    h2, p := CreateBlocks(at, h, s, entry, name, priority);
    var m3 := ReadyBytes(at, PutWord(h2.mem, p.addr + STACK, p.stack), s, p.addr, p.stack, entry, name, priority);
    ConsistentKept(at, h, h2, s);
    OwnBlocksAppend(h.blocks, h2.blocks, s.ring, p);
    NewBlocksClear(h2, s, p);
    FilledBytes(at, h2.mem, s, p, entry, name, priority);
    FilledStored(at, h2.mem, m3, s, p);
    SpacedLength(h2.mem, m3, s.ring + [p]);
  }

  /** The fields of the process created, and its name at 20: whole if it has at most 31 bytes, else its
      first 31, and a NUL behind. */
  lemma CreatedFields(m: Mem, p: Pcb, pid: uint32, priority: uint32, name: seq<byte>)
    requires p == NewPcb(p.addr, pid, priority, p.esp, p.stack) && Named(m, p, name)
    ensures p.state == Ready && p.total == 0 && p.pid == pid && p.priority == priority
    ensures priority <= 0x3333_3333 ==> p.quantum == 5 * priority
    ensures var n := if |name| <= 31 then |name| else 31;
      && (forall i :: 0 <= i < n ==> Byte(m, p.addr + 20 + i) == name[i])
      && Byte(m, p.addr + 20 + n) == 0
  {
    var l := Label(name);
    assert |l| == (if |name| <= 31 then |name| else 31) + 1;
    assert l[|l| - 1] == 0;
  }

  lemma SpacedLength(m: Mem, m': Mem, ring: seq<Pcb>)
    requires Spaced(m, ring) && |m| == |m'|
    ensures Spaced(m', ring)
  {
  }

  lemma SameInsert(at: Statics, m: Mem, s: Sys, s1: Sys, a: uint32)
    requires s.ring == s1.ring
    ensures InsertBytes(at, m, s, a) == InsertBytes(at, m, s1, a)
  {
    hide PutWord;
  }

  lemma NewBlocksClear(h2: HeapState, s: Sys, p: Pcb)
    requires Good(h2) && OwnBlocks(h2.blocks, s.ring + [p])
    ensures Spaced(h2.mem, s.ring + [p])
    ensures KERNEL_END <= p.addr && p.addr + PCB_SIZE <= |h2.mem|
    ensures KERNEL_END <= p.stack && p.stack + STACK_SIZE <= HEAP_END <= |h2.mem|
    ensures Clear(p.addr, PCB_SIZE, p.stack, STACK_SIZE)
    ensures forall i :: 0 <= i < |s.ring| ==> Clear(p.stack, STACK_SIZE, s.ring[i].addr, PCB_SIZE)
  {
    hide Good, OwnsBetween, Spaced;
    var r, n := s.ring + [p], |s.ring|;
    assert r[n] == p;
    OwnBlocksSpaced(h2, r);
    BlockInside(h2, p.addr, PCB_SIZE);
    BlockInside(h2, p.stack, STACK_SIZE);
    BlocksClear(h2, p.addr, PCB_SIZE, p.stack, STACK_SIZE);
    forall i | 0 <= i < n ensures Clear(p.stack, STACK_SIZE, s.ring[i].addr, PCB_SIZE) {
      assert r[i] == s.ring[i];
      BlocksClear(h2, p.stack, STACK_SIZE, r[i].addr, PCB_SIZE);
    }
  }

  /** Building touches no header. */
  lemma BuiltGood(at: Statics, h2: HeapState, m3: Mem, m': Mem, s: Sys, p: Pcb)
    requires Good(h2) && OwnBlocks(h2.blocks, s.ring + [p]) && |m3| == |h2.mem|
    requires forall x :: !InNew(at, p, x) ==> Byte(m3, x) == Byte(h2.mem, x)
    requires SameOffTable(at, s.ring + [p], m3, m')
    ensures Good(HeapState(m', h2.blocks))
  {
    hide Good, OwnsBetween, InHeader;
    var r, n := s.ring + [p], |s.ring|;
    assert r[n] == p;
    HeadersOffTable(at, h2, r);
    BlockInside(h2, p.stack, STACK_SIZE);
    forall x | InHeader(h2.blocks, x) ensures Byte(m', x) == Byte(h2.mem, x) {
      assert !InPcb(r[n], x);
    }
    SameHeadersGood(h2, m');
  }

  /** Insertion leaves the new stack and the new name alone. */
  lemma InsertKeepsNew(at: Statics, m: Mem, s: Sys, p: Pcb, entry: uint32, name: seq<byte>)
    requires Spaced(m, s.ring + [p]) && Clear(p.addr, PCB_SIZE, p.stack, STACK_SIZE) && KERNEL_END <= p.stack
    requires forall i :: 0 <= i < |s.ring| ==> Clear(p.stack, STACK_SIZE, s.ring[i].addr, PCB_SIZE)
    requires FreshStack(m, p, entry) && Named(m, p, name)
    ensures FreshStack(InsertBytes(at, m, s, p.addr), p, entry) && Named(InsertBytes(at, m, s, p.addr), p, name)
  {
    hide Restore, InsertBytes, Label;
    var m', r, n := InsertBytes(at, m, s, p.addr), s.ring + [p], |s.ring|;
    InsertOutside(at, m, s, p.addr);
    assert r[n] == p && (n > 0 ==> r[n - 1] == s.ring[n - 1]);
    RestoreSame(m, m', p.esp);
    forall i | 0 <= i < |Label(name)| ensures Byte(m', p.addr + NAME + i) == Label(name)[i] {
      assert !InLinks(at, s, p.addr, p.addr + NAME + i);
    }
  }

  /** Of the old payloads, building touches the last PCB only. */
  lemma BuiltPayloads(at: Statics, h: HeapState, h2: HeapState, m3: Mem, s: Sys, p: Pcb)
    requires Good(h) && Good(h2) && KeepsPayloads(h, h2) && OwnBlocks(h2.blocks, s.ring + [p]) && |m3| == |h2.mem|
    requires !Live(h.blocks, p.addr) && !Live(h.blocks, p.stack)
    requires forall x :: !InNew(at, p, x) ==> Byte(m3, x) == Byte(h2.mem, x)
    ensures var h' := HeapState(InsertBytes(at, m3, s, p.addr), h2.blocks);
      && (forall q, t :: Owns(h.blocks, q, t) ==> Owns(h'.blocks, q, t))
      && (forall q, t :: Owns(h.blocks, q, t) && NotTail(s.ring, q) ==> SamePayload(h, h', q, t))
  {
    hide Good, Owns, OwnsBetween, InHeader, Live, InsertBytes;
    var h', r, n := HeapState(InsertBytes(at, m3, s, p.addr), h2.blocks), s.ring + [p], |s.ring|;
    assert r[n] == p && (n > 0 ==> r[n - 1] == s.ring[n - 1]);
    InsertOutside(at, m3, s, p.addr);
    forall q, t | Owns(h.blocks, q, t) && NotTail(s.ring, q) ensures SamePayload(h, h', q, t) {
      OwnsLive(h.blocks, q, t);
      assert SamePayload(h, h2, q, t) && Owns(h2.blocks, q, t);
      PayloadClear(h2, q, t, p.addr, PCB_SIZE);
      PayloadClear(h2, q, t, p.stack, STACK_SIZE);
      if n > 0 {
        PayloadClear(h2, q, t, r[n - 1].addr, PCB_SIZE);
      }
    }
  }

  lemma PayloadClear(h: HeapState, q: int, t: int, p: int, size: int)
    requires Good(h) && Owns(h.blocks, q, t) && OwnsBetween(h.blocks, p, size, size + 16) && p != q
    ensures Clear(q, t, p, size) && HEAP_START <= q
  {
    hide Owns, Addr, InHeader;
    var s :| size <= s <= size + 16 && Owns(h.blocks, p, s);
    PayloadsDisjoint(h.blocks, q, t, p, s);
  }

  /** Either way heap and table stay consistent. */
  lemma CreateConsistent(at: Statics, h: HeapState, s: Sched.Sys, entry: uint32, name: seq<byte>, priority: uint32)
    requires Consistent(at, h, s)
    ensures var (h', s', _) := CreateProcess(at, h, s, entry, name, priority);
      Consistent(at, h', s')
  {
    hide Good, Stored, CreateProcess, OwnBlocks, KeepsPayloads, FreshStack, Named, Live,
      SamePayload, Owns;
    if CreateProcess(at, h, s, entry, name, priority).2 == 0 {
      CreateFails(at, h, s, entry, name, priority);
      ConsistentKept(at, h, CreateProcess(at, h, s, entry, name, priority).0, s);
    } else {
      var p := CreateSucceeds(at, h, s, entry, name, priority);
    }
  }
}
