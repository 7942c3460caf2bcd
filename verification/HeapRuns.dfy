/** Runs of the heap: any sequence of kmalloc calls, valid kfree calls and stores by the owners of
    live payloads. */
module HeapRuns {
  import opened Bytes
  import opened HeapList
  import opened HeapBytes
  import opened HeapModel

  datatype Op =
    | Malloc(size: uint32)
    | Release(p: uint32)
    | Store(a: uint32, v: byte)

  ghost predicate InPayload(bs: Blocks, a: int) {
    exists p, s :: Owns(bs, p, s) && p <= a < p + s
  }

  /** What the heap's callers may do: free only null or live pointers, store only into live payloads. */
  ghost predicate Allowed(h: HeapState, op: Op) {
    match op
    case Malloc(_) => true
    case Release(p) => p == 0 || Live(h.blocks, p)
    case Store(a, _) => InPayload(h.blocks, a)
  }

  ghost function Step(h: HeapState, op: Op): HeapState
    requires Allowed(h, op)
  {
    match op
    case Malloc(size) => Kmalloc(h, size).0
    case Release(p) => Kfree(h, p)
    case Store(a, v) => h.(mem := Poke(h.mem, a, v))
  }

  ghost predicate AllowedRun(h: HeapState, ops: seq<Op>)
    decreases |ops|
  {
    ops == [] || (Allowed(h, ops[0]) && AllowedRun(Step(h, ops[0]), ops[1..]))
  }

  ghost function Run(h: HeapState, ops: seq<Op>): HeapState
    requires AllowedRun(h, ops)
    decreases |ops|
  {
    if ops == [] then h else Run(Step(h, ops[0]), ops[1..])
  }

  lemma StoreGood(h: HeapState, a: uint32, v: byte)
    requires Good(h) && InPayload(h.blocks, a)
    ensures Good(h.(mem := Poke(h.mem, a, v)))
  {
    hide Addr, Hdr, Owns;
    var p, s :| Owns(h.blocks, p, s) && p <= a < p + s;
    PayloadWrite(h, Poke(h.mem, a, v), p, s, a, a + 1);
  }

  lemma StepGood(h: HeapState, op: Op)
    requires Good(h) && Allowed(h, op)
    ensures Good(Step(h, op))
  {
    match op
    case Malloc(size) => KmallocCorrect(h, size);
    case Release(p) => if p != 0 { KfreeCorrect(h, p); }
    case Store(a, v) => StoreGood(h, a, v);
  }

  /** Every run keeps the heap well formed: the headers reached through the bytes tile the region,
      the two link fields invert each other, and no two neighbours are free. */
  lemma {:induction false} RunGood(h: HeapState, ops: seq<Op>)
    requires Good(h) && AllowedRun(h, ops)
    ensures Good(Run(h, ops))
    decreases |ops|
  {
    if ops != [] {
      StepGood(h, ops[0]);
      RunGood(Step(h, ops[0]), ops[1..]);
    }
  }

  /** op gives up the payload [q, q + s) or writes to it. */
  predicate Touches(op: Op, q: int, s: int) {
    match op
    case Malloc(_) => false
    case Release(p) => p == q
    case Store(a, _) => q <= a < q + s
  }

  lemma StepKeepsPayload(h: HeapState, op: Op, q: int, s: int)
    requires Good(h) && Allowed(h, op) && Owns(h.blocks, q, s) && !Touches(op, q, s)
    ensures Owns(Step(h, op).blocks, q, s) && SamePayload(h, Step(h, op), q, s)
  {
    hide Owns, Addr;
    match op
    case Malloc(size) => KmallocCorrect(h, size);
    case Release(p) => if p != 0 { KfreeCorrect(h, p); }
    case Store(a, v) =>
  }

  /** Over any run, a live payload that its owner neither frees nor writes stays live, at the same
      place and size, with every byte unchanged. */
  lemma {:induction false} RunKeepsPayload(h: HeapState, ops: seq<Op>, q: int, s: int)
    requires Good(h) && AllowedRun(h, ops) && Owns(h.blocks, q, s)
    requires forall op :: op in ops ==> !Touches(op, q, s)
    ensures Owns(Run(h, ops).blocks, q, s) && SamePayload(h, Run(h, ops), q, s)
    decreases |ops|
  {
    hide Owns, Addr, Kmalloc, Kfree;
    if ops != [] {
      assert ops[0] in ops;
      StepGood(h, ops[0]);
      StepKeepsPayload(h, ops[0], q, s);
      RunKeepsPayload(Step(h, ops[0]), ops[1..], q, s);
    }
  }

  /** The pointers returned and not yet freed, when out are those outstanding at the start. */
  ghost function Outstanding(h: HeapState, ops: seq<Op>, out: set<int>): set<int>
    requires AllowedRun(h, ops)
    decreases |ops|
  {
    if ops == [] then out
    else
      var out' :=
        match ops[0]
        case Malloc(size) => if Kmalloc(h, size).1 == 0 then out else out + {Kmalloc(h, size).1 as int}
        case Release(p) => out - {p as int}
        case Store(_, _) => out;
      Outstanding(Step(h, ops[0]), ops[1..], out')
  }

  lemma LiveOwns(bs: Blocks, p: int)
    ensures Live(bs, p) <==> exists s :: Owns(bs, p, s)
  {
    hide Addr;
    if Live(bs, p) {
      var k, s :| OwnsAt(bs, p, s, k);
      assert Owns(bs, p, s);
    }
    if s :| Owns(bs, p, s) {
      var k :| OwnsAt(bs, p, s, k);
      assert OwnsAt(bs, p, s, k);
    }
  }

  lemma StepLive(h: HeapState, op: Op, p: int)
    requires Good(h) && Allowed(h, op)
    ensures Live(Step(h, op).blocks, p) <==>
      match op
      case Malloc(size) => Live(h.blocks, p) || (p == Kmalloc(h, size).1 && p != 0)
      case Release(q) => Live(h.blocks, p) && (q == 0 || p != q)
      case Store(_, _) => Live(h.blocks, p)
  {
    hide Owns, Addr, Live;
    LiveOwns(h.blocks, p);
    LiveOwns(Step(h, op).blocks, p);
    match op
    case Malloc(size) =>
      KmallocCorrect(h, size);
      if p == Kmalloc(h, size).1 && p != 0 {
        assert OwnsBetween(Step(h, op).blocks, p, RoundUp(size), RoundUp(size) + 16);
      }
    case Release(q) => if q != 0 { KfreeCorrect(h, q); }
    case Store(a, v) =>
  }

  lemma {:induction false} OutstandingIsLive(h: HeapState, ops: seq<Op>, out: set<int>)
    requires Good(h) && AllowedRun(h, ops)
    requires forall p :: p in out <==> Live(h.blocks, p)
    ensures forall p :: p in Outstanding(h, ops, out) <==> Live(Run(h, ops).blocks, p)
    decreases |ops|
  {
    hide Owns, Addr, Live, Kmalloc, Kfree;
    if ops != [] {
      StepGood(h, ops[0]);
      NullNotLive(h.blocks);
      var out' :=
        match ops[0]
        case Malloc(size) => if Kmalloc(h, size).1 == 0 then out else out + {Kmalloc(h, size).1 as int}
        case Release(p) => out - {p as int}
        case Store(_, _) => out;
      forall p ensures p in out' <==> Live(Step(h, ops[0]).blocks, p) {
        StepLive(h, ops[0], p);
      }
      OutstandingIsLive(Step(h, ops[0]), ops[1..], out');
    }
  }

  lemma UsedIsLive(bs: Blocks, i: nat)
    requires i < |bs|
    ensures bs[i].used ==> Live(bs, Addr(bs, i) + HDR)
  {
    assert bs[i].used ==> OwnsAt(bs, Addr(bs, i) + HDR, bs[i].size, i);
  }

  lemma NullNotLive(bs: Blocks)
    ensures !Live(bs, 0)
  {
  }

  /** From heap_init, after any run in which every pointer handed out has been freed, in whatever
      order, the heap is again the single initial free block. */
  lemma AllFreedIsInitial(m: Mem, ops: seq<Op>)
    requires |m| == RAM_SIZE && AllowedRun(HeapInit(m), ops)
    requires Outstanding(HeapInit(m), ops, {}) == {}
    ensures Run(HeapInit(m), ops).blocks == INITIAL
    ensures var m' := Run(HeapInit(m), ops).mem;
      && Word(m', 0x20_0000) == 0x10_0000 - 13 && Byte(m', 0x20_0004) == 0
      && Word(m', 0x20_0005) == 0 && Word(m', 0x20_0009) == 0
  {
    hide Word;
    InitRep(m);
    InitialWellFormed();
    var h := HeapInit(m);
    RunGood(h, ops);
    OutstandingIsLive(h, ops, {});
    var bs := Run(h, ops).blocks;
    forall i | 0 <= i < |bs| ensures !bs[i].used {
      UsedIsLive(bs, i);
    }
    NothingUsedIsInitial(bs);
    HeaderFields(Run(h, ops).mem, bs, 0);
  }

  /** In every reachable heap, free blocks number at most one more than used blocks. */
  lemma ReachableFragmentation(m: Mem, ops: seq<Op>)
    requires |m| == RAM_SIZE && AllowedRun(HeapInit(m), ops)
    ensures var bs := Run(HeapInit(m), ops).blocks;
      |bs| - CountUsed(bs) <= CountUsed(bs) + 1
  {
    InitRep(m);
    InitialWellFormed();
    RunGood(HeapInit(m), ops);
    FreeAtMostUsedPlusOne(Run(HeapInit(m), ops).blocks);
  }
}
