/** How many processes a fresh heap holds. */
module Capacity {
  import opened Bytes
  import opened HeapList
  import opened HeapBytes
  import opened HeapModel
  import Sched
  import opened Pcbs
  import opened Processes
  import ContextRuns

  /** Heap bytes one process takes: two headers, the PCB and the stack. */
  const PER_PROCESS := 16474
  const MAX_CREATED := 63

  function UsedPairs(k: nat): (bs: Blocks)
    ensures |bs| == 2 * k
    ensures forall i :: 0 <= i < |bs| ==> bs[i].used
  {
    if k == 0 then [] else UsedPairs(k - 1) + [Block(PCB_SIZE, true), Block(STACK_SIZE, true)]
  }

  /** The heap after k creations: 2k used blocks and one free block. */
  function Shape(k: nat): Blocks
    requires k <= MAX_CREATED
  {
    UsedPairs(k) + [Block(HEAP_SIZE - HDR - PER_PROCESS * k, false)]
  }

  lemma {:induction false} FirstFitPastUsed(us: Blocks, b: Block, n: nat)
    requires forall i :: 0 <= i < |us| ==> us[i].used
    ensures FirstFit(us + [b], n) == if Fits(b, n) then |us| else |us| + 1
  {
    if us == [] {
      assert us + [b] == [b] && [b][1..] == [];
    } else {
      assert (us + [b])[1..] == us[1..] + [b];
      FirstFitPastUsed(us[1..], b, n);
    }
  }

  lemma CarveTail(us: Blocks, f: nat, n: nat)
    requires f >= n + HDR + 4
    ensures Carve(us + [Block(f, false)], |us|, n) == us + [Block(n, true)] + [Block(f - n - HDR, false)]
  {
    var bs, i := us + [Block(f, false)], |us|;
    var pre, post := bs[..i], bs[i + 1..];
    assert pre == us && post == [] && bs[i] == Block(f, false);
  }

  lemma MallocTail(us: Blocks, f: nat, n: nat)
    requires forall i :: 0 <= i < |us| ==> us[i].used
    requires f >= n + HDR + 4
    ensures Malloc(us + [Block(f, false)], n) == us + [Block(n, true)] + [Block(f - n - HDR, false)]
    ensures FirstFit(us + [Block(f, false)], n) == |us|
  {
    hide FirstFit, Carve;
    FirstFitPastUsed(us, Block(f, false), n);
    CarveTail(us, f, n);
  }

  lemma KmallocList(h: HeapState, size: uint32)
    requires Good(h) && size > 0
    ensures Kmalloc(h, size).0.blocks == Malloc(h.blocks, RoundUp(size))
    ensures Kmalloc(h, size).1 == 0 <==> FirstFit(h.blocks, RoundUp(size)) == |h.blocks|
  {
    hide Addr, CarveBytes, Hdr;
    var i := FirstFit(h.blocks, RoundUp(size));
    if i < |h.blocks| {
      AddrInside(h.blocks, i);
    }
  }

  lemma UsedPairsNext(k: nat)
    ensures UsedPairs(k + 1) == UsedPairs(k) + [Block(PCB_SIZE, true)] + [Block(STACK_SIZE, true)]
  {
  }

  lemma TooSmall(us: Blocks, f: nat, n: nat)
    requires f < n && forall i :: 0 <= i < |us| ==> us[i].used
    ensures FirstFit(us + [Block(f, false)], n) == |us| + 1
  {
    FirstFitPastUsed(us, Block(f, false), n);
  }

  /** The PCB of creation k + 1 always finds room. */
  lemma PcbFits(h: HeapState, k: nat)
    requires Good(h) && k <= MAX_CREATED && h.blocks == Shape(k)
    ensures var (h1, pcb) := Kmalloc(h, PCB_SIZE);
      && Good(h1) && pcb != 0
      && h1.blocks == UsedPairs(k) + [Block(PCB_SIZE, true)] + [Block(HEAP_SIZE - PER_PROCESS * k - 90, false)]
  {
    hide Kmalloc, Addr, Good, Owns, Live, Malloc, FirstFit, UsedPairs, Fits;
    MallocTail(UsedPairs(k), HEAP_SIZE - HDR - PER_PROCESS * k, PCB_SIZE);
    KmallocList(h, PCB_SIZE);
    KmallocCorrect(h, PCB_SIZE);
  }

  /** The stack of creation k + 1 finds room exactly while k < 63. */
  lemma StackFits(h: HeapState, k: nat)
    requires Good(h) && k <= MAX_CREATED
    requires h.blocks == UsedPairs(k) + [Block(PCB_SIZE, true)] + [Block(HEAP_SIZE - PER_PROCESS * k - 90, false)]
    ensures var (h1, stack) := Kmalloc(h, STACK_SIZE);
      && (stack != 0 <==> k < MAX_CREATED)
      && (k < MAX_CREATED ==> h1.blocks == Shape(k + 1))
  {
    hide Kmalloc, Addr, Good, Owns, Live, Malloc, FirstFit, UsedPairs, Fits;
    KmallocList(h, STACK_SIZE);
    UsedPairsNext(k);
    var us, f := UsedPairs(k) + [Block(PCB_SIZE, true)], HEAP_SIZE - PER_PROCESS * k - 90;
    if k < MAX_CREATED {
      MallocTail(us, f, STACK_SIZE);
    } else {
      TooSmall(us, f, STACK_SIZE);
    }
  }

  /** Creation k + 1 of a heap used only by creation succeeds exactly while k < 63. */
  lemma CreateShape(at: Statics, h: HeapState, s: Sched.Sys, r: Request, k: nat)
    requires Consistent(at, h, s) && k <= MAX_CREATED && h.blocks == Shape(k)
    ensures var (h', s', addr) := CreateProcess(at, h, s, r.entry, r.name, r.priority);
      && Consistent(at, h', s')
      && (addr != 0 <==> k < MAX_CREATED)
      && h'.blocks == Shape(if k < MAX_CREATED then k + 1 else k)
      && |s'.ring| == |s.ring| + if k < MAX_CREATED then 1 else 0
  {
    hide Kmalloc, Good, Stored, Kfree, UsedPairs, Shape, KeepsPayloads, BuildBytes, PutWord, Owns, OwnBlocks, FreshStack,
      Named, Live, SamePayload;
    PcbFits(h, k);
    StackFits(Kmalloc(h, PCB_SIZE).0, k);
    if k < MAX_CREATED {
      var p := CreateSucceeds(at, h, s, r.entry, r.name, r.priority);
    } else {
      CreateFails(at, h, s, r.entry, r.name, r.priority);
      ConsistentKept(at, h, CreateProcess(at, h, s, r.entry, r.name, r.priority).0, s);
    }
  }

  /** The arguments of one call of process_create. */
  datatype Request = Request(entry: uint32, name: seq<byte>, priority: uint32)

  /** One call after another, whether or not they succeed. */
  ghost function CreateAll(at: Statics, h: HeapState, s: Sched.Sys, reqs: seq<Request>): (HeapState, Sched.Sys)
    requires Consistent(at, h, s)
    decreases |reqs|
  {
    if reqs == [] then (h, s)
    else
      CreateConsistent(at, h, s, reqs[0].entry, reqs[0].name, reqs[0].priority);
      var (h', s', _) := CreateProcess(at, h, s, reqs[0].entry, reqs[0].name, reqs[0].priority);
      CreateAll(at, h', s', reqs[1..])
  }

  lemma {:induction false} CreateAllShape(at: Statics, h: HeapState, s: Sched.Sys, reqs: seq<Request>, k: nat)
    requires Consistent(at, h, s) && k <= MAX_CREATED && h.blocks == Shape(k)
    ensures var (h', s') := CreateAll(at, h, s, reqs);
      var made := if k + |reqs| <= MAX_CREATED then |reqs| else MAX_CREATED - k;
      h'.blocks == Shape(k + made) && |s'.ring| == |s.ring| + made
    decreases |reqs|
  {
    hide CreateProcess, Stored, OwnBlocks, Shape, Good;
    if reqs != [] {
      CreateShape(at, h, s, reqs[0], k);
      var (h', s', _) := CreateProcess(at, h, s, reqs[0].entry, reqs[0].name, reqs[0].priority);
      CreateAllShape(at, h', s', reqs[1..], if k < MAX_CREATED then k + 1 else k);
    }
  }

  lemma ShapeZero()
    ensures INITIAL == Shape(0)
  {
    assert UsedPairs(0) == [];
  }

  /** Process creation from boot. */
  ghost function CreateFresh(at: Statics, m: Mem, reqs: seq<Request>): (HeapState, Sched.Sys)
    requires |m| == RAM_SIZE
  {
    ContextRuns.BootConsistent(at, m);
    CreateAll(at, HeapState(ContextRuns.BootBytes(at, m), INITIAL), Sched.BOOT, reqs)
  }

  function Made(n: nat): (k: nat)
    ensures k <= MAX_CREATED
  {
    if n <= MAX_CREATED then n else MAX_CREATED
  }

  /** From boot, with the heap used only by creation, the first 63 creations succeed and every later
      one fails; after k <= 63 of them one free block of 1048563 - 16474 k bytes is left. */
  lemma HeapHolds63(at: Statics, m: Mem, reqs: seq<Request>)
    requires |m| == RAM_SIZE
    ensures var (h', s'), k := CreateFresh(at, m, reqs), Made(|reqs|);
      |s'.ring| == k && h'.blocks == UsedPairs(k) + [Block(1048563 - 16474 * k, false)]
  {
    hide CreateAll, Consistent, Shape, ContextRuns.BootBytes, UsedPairs;
    ContextRuns.BootConsistent(at, m);
    ShapeZero();
    CreateAllShape(at, HeapState(ContextRuns.BootBytes(at, m), INITIAL), Sched.BOOT, reqs, 0);
    ShapeIs(Made(|reqs|));
  }

  lemma ShapeIs(k: nat)
    requires k <= MAX_CREATED
    ensures Shape(k) == UsedPairs(k) + [Block(1048563 - 16474 * k, false)]
  {
  }
}
