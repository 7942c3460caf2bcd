/** The allocator of heap.c: headers overwritten in place, found by following `next`. */
module Heap {
  import opened Bytes
  import opened HeapList
  import opened HeapBytes
  import opened HeapModel

  class Allocator {
    const mem: array<byte>
    /** Where heap_start_ptr is kept. */
    const heapStart: nat
    ghost var blocks: Blocks

    constructor (mem: array<byte>, heapStart: nat)
      ensures this.mem == mem && this.heapStart == heapStart
    {
      this.mem, this.heapStart := mem, heapStart;
      blocks := [];
    }

    ghost function State(): HeapState
      reads this, mem
    {
      HeapState(mem[..], blocks)
    }

    ghost predicate Valid()
      reads this, mem
    {
      && mem.Length == RAM_SIZE && Good(State())
      && heapStart + 4 <= HEAP_START && Word(mem[..], heapStart) == HEAP_START
    }

    method Init()
      requires mem.Length == RAM_SIZE && heapStart + 4 <= HEAP_START
      modifies this, mem
      ensures Valid() && State() == HeapModel.HeapInit(PutWord(old(mem[..]), heapStart, HEAP_START))
    {
      hide Hdr, SetSize, SetUsed, SetNext, SetPrev, OneHeader, Word, PutWord;
      Store32(mem, heapStart, HEAP_START);
      ghost var m := mem[..];
      PutWordSpec(old(mem[..]), heapStart, HEAP_START);
      InitRep(m);
      InitialWellFormed();
      StartKept(m, InitBytes(m), heapStart, INITIAL);
      StoreSize(HEAP_START, HEAP_SIZE - HDR);
      StoreUsed(HEAP_START, 0);
      StoreNext(HEAP_START, 0);
      StorePrev(HEAP_START, 0);
      blocks := INITIAL;
    }

    method StoreSize(a: uint32, v: uint32)
      requires a + HDR <= mem.Length
      modifies mem
      ensures mem[..] == SetSize(old(mem[..]), a, v)
    {
      Store32(mem, a, v);
    }

    method StoreUsed(a: uint32, v: byte)
      requires a + HDR <= mem.Length
      modifies mem
      ensures mem[..] == SetUsed(old(mem[..]), a, v)
    {
      Store8(mem, a + 4, v);
    }

    method StoreNext(a: uint32, v: uint32)
      requires a + HDR <= mem.Length
      modifies mem
      ensures mem[..] == SetNext(old(mem[..]), a, v)
    {
      Store32(mem, a + 5, v);
    }

    method StorePrev(a: uint32, v: uint32)
      requires a + HDR <= mem.Length
      modifies mem
      ensures mem[..] == SetPrev(old(mem[..]), a, v)
    {
      Store32(mem, a + 9, v);
    }

    method LoadHeader(a: uint32) returns (h: Header)
      requires a + HDR <= mem.Length
      ensures h == Hdr(mem[..], a)
    {
      var size := Load32(mem, a);
      var next := Load32(mem, a + 5);
      var prev := Load32(mem, a + 9);
      h := Header(size, mem[a + 4], next, prev);
    }

    /** First fit over the linked headers, splitting when enough is left over. */
    method Kmalloc(size: uint32) returns (p: uint32)
      requires Valid()
      modifies this, mem
      ensures Valid()
      ensures (State(), p) == HeapModel.Kmalloc(old(State()), size)
    {
      hide Addr, Hdr, CarveBytes, Carve, FirstFit, Word, SplitSafe, HeapBytes.Rep, Coalesced, Tiles, Links;
      if size == 0 {
        return 0;
      }
      var n: int := size;
      if n % 4 != 0 {
        n := Wrap32(n + (4 - n % 4));
      }
      assert n == RoundUp(size);
      var current := Load32(mem, heapStart);
      ghost var i := 0;
      HasBlock(State());
      while current != 0
        invariant 0 <= i <= |blocks|
        invariant current == if i < |blocks| then Addr(blocks, i) else 0
        invariant forall j :: 0 <= j < i ==> !Fits(blocks[j], n)
        invariant Valid() && State() == old(State())
        decreases |blocks| - i
      {
        HeaderAt(State(), i);
        var h := LoadHeader(current);
        if h.used == 0 && h.size >= n {
          assert i == FirstFit(blocks, n);
          CarveSafe(State(), i, n, heapStart);
          Take(current, n);
          blocks := Carve(blocks, i, n);
          return current + HDR;
        }
        current := h.next;
        i := i + 1;
      }
      assert i == |blocks|;
      return 0;
    }

    /** Lines 40 to 57 of heap.c: split the free block at current if enough is left, then mark it. */
    method Take(current: uint32, n: nat)
      requires mem.Length == RAM_SIZE && SplitSafe(mem[..], current, n)
      modifies mem
      ensures mem[..] == CarveBytes(old(mem[..]), current, n)
    {
      hide Hdr, SetSize, SetUsed, SetNext, SetPrev, SplitBytes, OneHeader;
      var h := LoadHeader(current);
      if h.size >= n + HDR + 4 {
        Split(current, n);
      }
      StoreUsed(current, 1);
    }

    method Split(current: uint32, n: nat)
      requires mem.Length == RAM_SIZE && SplitSafe(mem[..], current, n)
      requires Hdr(mem[..], current).size >= n + HDR + 4
      modifies mem
      ensures mem[..] == SplitBytes(old(mem[..]), current, n)
    {
      hide Hdr, SetSize, SetUsed, SetNext, SetPrev, OneHeader;
      SplitKeepsHeader(mem[..], current, n);
      var newBlock := current + HDR + n;
      var h := LoadHeader(current);
      StoreSize(newBlock, h.size - n - HDR);
      StoreUsed(newBlock, 0);
      h := LoadHeader(current);
      StoreNext(newBlock, h.next);
      StorePrev(newBlock, current);
      h := LoadHeader(current);
      if h.next != 0 {
        StorePrev(h.next, newBlock);
      }
      StoreNext(current, newBlock);
      StoreSize(current, n);
    }

    /** Frees a live pointer and merges the block with free neighbours on both sides. */
    method Kfree(p: uint32)
      requires Valid() && (p == 0 || Live(blocks, p))
      modifies this, mem
      ensures Valid()
      ensures State() == HeapModel.Kfree(old(State()), p)
    {
      hide Addr, Hdr, Free, FreeBytes, FreeSafe, Word;
      if p == 0 {
        return;
      }
      ghost var i := IndexOf(blocks, p);
      KfreeCorrect(State(), p);
      AddrInside(blocks, i);
      LiveFreeSafe(mem[..], blocks, i);
      FreeRep(mem[..], blocks, i);
      StartKept(mem[..], FreeBytes(mem[..], p - HDR), heapStart, blocks);
      Give(p - HDR);
      blocks := Free(blocks, i);
    }

    /** Lines 77 to 93 of heap.c. */
    method Give(block: uint32)
      requires mem.Length == RAM_SIZE && FreeSafe(mem[..], block)
      modifies mem
      ensures mem[..] == FreeBytes(old(mem[..]), block)
    {
      hide Hdr, SetUsed, HeapBytes.Absorb;
      StoreUsed(block, 0);
      var b := LoadHeader(block);
      var next := b.next;
      if next != 0 {
        var h := LoadHeader(next);
        if h.used == 0 {
          Absorb(block, next);
        }
      }
      b := LoadHeader(block);
      var prev := b.prev;
      if prev != 0 {
        var h := LoadHeader(prev);
        if h.used == 0 {
          Absorb(prev, block);
        }
      }
    }

    method Absorb(p: uint32, b: uint32)
      requires p + HDR <= mem.Length && b + HDR <= mem.Length
      requires Hdr(mem[..], b).next + HDR <= mem.Length
      requires p + HDR <= b || b + HDR <= p
      modifies mem
      ensures mem[..] == HeapBytes.Absorb(old(mem[..]), p, b)
    {
      hide Hdr, SetSize, SetNext, SetPrev;
      var hp := LoadHeader(p);
      var hb := LoadHeader(b);
      StoreSize(p, Wrap32(hp.size + HDR + hb.size));
      hb := LoadHeader(b);
      StoreNext(p, hb.next);
      if hb.next != 0 {
        StorePrev(hb.next, p);
      }
    }
  }

  /** Writing headers leaves heap_start_ptr alone. */
  lemma StartKept(m: Mem, m': Mem, heapStart: nat, bs: Blocks)
    requires heapStart + 4 <= HEAP_START && SameOffHeaders(m, m', bs)
    ensures Word(m', heapStart) == Word(m, heapStart)
  {
    hide Word;
    WordSame(m, m', heapStart);
  }

  /** Taking from block i goes through pointers inside memory only and keeps the heap well formed. */
  lemma CarveSafe(h: HeapState, i: nat, n: nat, heapStart: nat)
    requires Good(h) && i < |h.blocks| && Fits(h.blocks[i], n) && n < 0x1_0000_0000 && heapStart + 4 <= HEAP_START
    ensures var a := Addr(h.blocks, i);
      && a < RAM_SIZE && SplitSafe(h.mem, a, n)
      && Good(HeapState(CarveBytes(h.mem, a, n), Carve(h.blocks, i, n)))
      && Word(CarveBytes(h.mem, a, n), heapStart) == Word(h.mem, heapStart)
  {
    hide Addr, Hdr, CarveBytes, Carve, Word;
    CarveRep(h.mem, h.blocks, i, n);
    CarveWellFormed(h.blocks, i, n);
    NextAfter(h.blocks, i);
    assert Hdr(h.mem, Addr(h.blocks, i)) == Links(h.blocks, i);
    StartKept(h.mem, CarveBytes(h.mem, Addr(h.blocks, i), n), heapStart, Carve(h.blocks, i, n));
  }

  /** What kmalloc reads at block i. */
  lemma HeaderAt(h: HeapState, i: nat)
    requires Good(h) && i < |h.blocks|
    ensures Addr(h.blocks, i) + HDR <= HEAP_END && Addr(h.blocks, i) > 0
    ensures var d := Hdr(h.mem, Addr(h.blocks, i));
      && d.size == h.blocks[i].size && (d.used == 0 <==> !h.blocks[i].used)
      && d.next == if i + 1 < |h.blocks| then Addr(h.blocks, i + 1) else 0
  {
    hide Addr, Hdr;
    AddrInside(h.blocks, i);
    assert Hdr(h.mem, Addr(h.blocks, i)) == Links(h.blocks, i);
  }

  lemma HasBlock(h: HeapState)
    requires Good(h)
    ensures h.blocks != [] && Addr(h.blocks, 0) == HEAP_START
  {
    hide Hdr;
  }

  /** Writing the new block's header leaves the header at a alone. */
  lemma SplitKeepsHeader(m: Mem, a: uint32, n: nat)
    requires |m| == RAM_SIZE && SplitSafe(m, a, n) && Hdr(m, a).size >= n + HDR + 4
    ensures var nb := a + HDR + n;
      var x2 := SetUsed(SetSize(m, nb, Hdr(m, a).size - n - HDR), nb, 0);
      var x4 := SetPrev(SetNext(x2, nb, Hdr(x2, a).next), nb, a);
      Hdr(x2, a) == Hdr(m, a) && Hdr(x4, a) == Hdr(m, a)
  {
    hide Hdr, SetSize, SetUsed, SetNext, SetPrev;
  }

  /** Every pointer kmalloc writes through at block a stays inside memory. */
  ghost predicate SplitSafe(m: Mem, a: uint32, n: nat) {
    var h := Hdr(m, a);
    && a + HDR <= RAM_SIZE && n < 0x1_0000_0000 && a + HDR + h.size <= RAM_SIZE
    && h.next + HDR <= RAM_SIZE && (h.next == 0 || h.next >= a + HDR + h.size)
  }

  lemma NextAfter(bs: Blocks, i: nat)
    requires Tiles(bs) && i < |bs|
    ensures Addr(bs, i) + HDR + bs[i].size <= HEAP_END
    ensures i + 1 < |bs| ==> Addr(bs, i + 1) == Addr(bs, i) + HDR + bs[i].size && Addr(bs, i + 1) + HDR <= HEAP_END
  {
    AddrStep(bs, i);
    AllInside(bs);
  }

  /** Every pointer kfree follows from the header at b is null or a header inside memory. */
  ghost predicate FreeSafe(m: Mem, b: uint32) {
    && b + HDR <= RAM_SIZE
    && var m1 := SetUsed(m, b, 0);
    && var nx := Hdr(m1, b).next;
    && (nx != 0 ==> b + HDR <= nx && nx + HDR <= RAM_SIZE && Hdr(m1, nx).next + HDR <= RAM_SIZE)
    && var m2 := if nx != 0 && Hdr(m1, nx).used == 0 then HeapBytes.Absorb(m1, b, nx) else m1;
    && Hdr(m2, b).next + HDR <= RAM_SIZE
    && Hdr(m2, b).prev + HDR <= RAM_SIZE
    && (Hdr(m2, b).prev != 0 ==> Hdr(m2, b).prev + HDR <= b)
  }

  lemma LiveFreeSafe(m: Mem, bs: Blocks, i: nat)
    requires Rep(m, bs) && i < |bs|
    ensures Addr(bs, i) < RAM_SIZE && FreeSafe(m, Addr(bs, i))
  {
    hide Addr, Hdr, SetUsed, HeapBytes.Absorb;
    AddrInside(bs, i);
    var b := Addr(bs, i);
    var bs1, m1 := Release(bs, i), SetUsed(m, b, 0);
    ReleaseRep(m, bs, i);
    ReleaseAddr(bs, i, i);
    AllInside(bs1);
    assert Hdr(m1, b) == Links(bs1, i);
    var nx := Hdr(m1, b).next;
    var bs2 := MergeNext(bs1, i);
    var m2 := if nx != 0 && Hdr(m1, nx).used == 0 then HeapBytes.Absorb(m1, b, nx) else m1;
    if i + 1 < |bs1| {
      assert Hdr(m1, nx) == Links(bs1, i + 1);
      AddrApart(bs1, i, i + 1);
      if !bs1[i + 1].used {
        AbsorbRep(m1, bs1, i);
        MergeAddr(bs1, i);
      }
    }
    assert Hdr(m2, b) == Links(bs2, i);
    AllInside(bs2);
    if i > 0 {
      AddrApart(bs2, i - 1, i);
    }
  }
}
