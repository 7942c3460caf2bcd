/** The heap as bytes: 13-byte headers linked by address inside the managed megabyte, and the
    writes kmalloc and kfree make to them. */
module HeapBytes {
  import opened Bytes
  import opened HeapList

  /** Bytes of physical memory in the model: the identity-mapped first 4 MB. */
  const RAM_SIZE := 0x40_0000

  /** block_header_t as read from memory: size at 0, used at 4, next at 5, prev at 9. */
  datatype Header = Header(size: uint32, used: byte, next: uint32, prev: uint32)

  function Hdr(m: Mem, a: int): Header {
    Header(Word(m, a), Byte(m, a + 4), Word(m, a + 5), Word(m, a + 9))
  }

  lemma HdrSame(m: Mem, m': Mem, a: int)
    requires SameOn(m, m', a, a + HDR)
    ensures Hdr(m, a) == Hdr(m', a)
  {
    WordSame(m, m', a);
    WordSame(m, m', a + 5);
    WordSame(m, m', a + 9);
  }

  /** r is m with the header at a replaced by h. */
  ghost predicate OneHeader(m: Mem, r: Mem, a: int, h: Header) {
    && SameOutside(m, r, a, a + HDR)
    && (forall b :: b + HDR <= a || a + HDR <= b ==> Hdr(r, b) == Hdr(m, b))
    && (0 <= a && a + HDR <= |m| ==> Hdr(r, a) == h)
  }

  lemma OneHeaderFrame(m: Mem, r: Mem, a: int)
    requires SameOutside(m, r, a, a + HDR)
    ensures forall b :: b + HDR <= a || a + HDR <= b ==> Hdr(r, b) == Hdr(m, b)
  {
    forall b | b + HDR <= a || a + HDR <= b ensures Hdr(r, b) == Hdr(m, b) {
      HdrSame(m, r, b);
    }
  }

  function SetSize(m: Mem, a: int, v: uint32): (r: Mem)
    ensures OneHeader(m, r, a, Hdr(m, a).(size := v))
  {
    var r := PutWord(m, a, v);
    assert OneHeader(m, r, a, Hdr(m, a).(size := v)) by {
      PutWordSpec(m, a, v);
      OneHeaderFrame(m, r, a);
      WordSame(m, r, a + 5);
      WordSame(m, r, a + 9);
    }
    r
  }

  function SetUsed(m: Mem, a: int, v: byte): (r: Mem)
    ensures OneHeader(m, r, a, Hdr(m, a).(used := v))
  {
    var r := Poke(m, a + 4, v);
    assert OneHeader(m, r, a, Hdr(m, a).(used := v)) by {
      OneHeaderFrame(m, r, a);
      WordSame(m, r, a);
      WordSame(m, r, a + 5);
      WordSame(m, r, a + 9);
    }
    r
  }

  function SetNext(m: Mem, a: int, v: uint32): (r: Mem)
    ensures OneHeader(m, r, a, Hdr(m, a).(next := v))
  {
    var r := PutWord(m, a + 5, v);
    assert OneHeader(m, r, a, Hdr(m, a).(next := v)) by {
      PutWordSpec(m, a + 5, v);
      OneHeaderFrame(m, r, a);
      WordSame(m, r, a);
      WordSame(m, r, a + 9);
    }
    r
  }

  function SetPrev(m: Mem, a: int, v: uint32): (r: Mem)
    ensures OneHeader(m, r, a, Hdr(m, a).(prev := v))
  {
    var r := PutWord(m, a + 9, v);
    assert OneHeader(m, r, a, Hdr(m, a).(prev := v)) by {
      PutWordSpec(m, a + 9, v);
      OneHeaderFrame(m, r, a);
      WordSame(m, r, a);
      WordSame(m, r, a + 5);
    }
    r
  }

  lemma AllInside(bs: Blocks)
    requires Tiles(bs)
    ensures forall i :: 0 <= i < |bs| ==> Addr(bs, i) + HDR + bs[i].size <= HEAP_END
  {
    forall i | 0 <= i < |bs| ensures Addr(bs, i) + HDR + bs[i].size <= HEAP_END {
      AddrInside(bs, i);
    }
  }

  /** The header block i must have: its links are the addresses of its neighbours. */
  function Links(bs: Blocks, i: nat): Header
    requires Tiles(bs) && i < |bs|
  {
    AllInside(bs);
    Header(bs[i].size,
           if bs[i].used then 1 else 0,
           if i + 1 < |bs| then Addr(bs, i + 1) else 0,
           if i > 0 then Addr(bs, i - 1) else 0)
  }

  /** The bytes m hold exactly the blocks bs. */
  ghost predicate Rep(m: Mem, bs: Blocks) {
    && |m| == RAM_SIZE
    && Tiles(bs)
    && forall i {:trigger Links(bs, i)} :: 0 <= i < |bs| ==> Hdr(m, Addr(bs, i)) == Links(bs, i)
  }

  ghost predicate InHeader(bs: Blocks, a: int) {
    exists i :: 0 <= i < |bs| && Addr(bs, i) <= a < Addr(bs, i) + HDR
  }

  /** Nothing but headers of bs differs between m and m'. */
  ghost predicate SameOffHeaders(m: Mem, m': Mem, bs: Blocks) {
    |m| == |m'| && forall a :: !InHeader(bs, a) ==> Byte(m, a) == Byte(m', a)
  }

  // ---------- The writes of heap_init, kmalloc and kfree ----------

  function InitBytes(m: Mem): Mem {
    SetPrev(SetNext(SetUsed(SetSize(m, HEAP_START, HEAP_SIZE - HDR), HEAP_START, 0), HEAP_START, 0), HEAP_START, 0)
  }

  /** Lines 42-54 of heap.c: the block at a keeps n bytes, the rest becomes a block of its own. */
  function SplitBytes(m: Mem, a: uint32, n: nat): Mem {
    var nb := Wrap32(a + HDR + n);
    var x1 := SetSize(m, nb, Wrap32(Hdr(m, a).size - n - HDR));
    var x2 := SetUsed(x1, nb, 0);
    var x3 := SetNext(x2, nb, Hdr(x2, a).next);
    var x4 := SetPrev(x3, nb, a);
    var nx := Hdr(x4, a).next;
    var x5 := if nx != 0 then SetPrev(x4, nx, nb) else x4;
    SetSize(SetNext(x5, a, nb), a, Wrap32(n))
  }

  /** Lines 40-57 of heap.c for the block at a. */
  function CarveBytes(m: Mem, a: uint32, n: nat): Mem {
    SetUsed(if Hdr(m, a).size >= n + HDR + 4 then SplitBytes(m, a, n) else m, a, 1)
  }

  /** The block at p takes over its successor b: lines 81-84 and 89-92 of heap.c. */
  function Absorb(m: Mem, p: uint32, b: uint32): Mem {
    var m1 := SetSize(m, p, Wrap32(Hdr(m, p).size + HDR + Hdr(m, b).size));
    var nx := Hdr(m1, b).next;
    var m2 := SetNext(m1, p, nx);
    if nx != 0 then SetPrev(m2, nx, p) else m2
  }

  function FreeBytes(m: Mem, b: uint32): Mem {
    var m1 := SetUsed(m, b, 0);
    var nx := Hdr(m1, b).next;
    var m2 := if nx != 0 && Hdr(m1, nx).used == 0 then Absorb(m1, b, nx) else m1;
    var pv := Hdr(m2, b).prev;
    if pv != 0 && Hdr(m2, pv).used == 0 then Absorb(m2, pv, b) else m2
  }

  // ---------- They keep bytes and blocks together ----------

  lemma HeaderApart(bs: Blocks, i: nat, j: nat)
    requires i < |bs| && j < |bs| && i != j
    ensures Addr(bs, i) + HDR <= Addr(bs, j) || Addr(bs, j) + HDR <= Addr(bs, i)
  {
    if i < j { AddrApart(bs, i, j); } else { AddrApart(bs, j, i); }
  }

  lemma InitRep(m: Mem)
    requires |m| == RAM_SIZE
    ensures Rep(InitBytes(m), INITIAL)
    ensures SameOffHeaders(m, InitBytes(m), INITIAL)
  {
    InitialWellFormed();
    assert Addr(INITIAL, 0) == HEAP_START;
    var m1 := SetSize(m, HEAP_START, HEAP_SIZE - HDR);
    var m2 := SetUsed(m1, HEAP_START, 0);
    var m3 := SetNext(m2, HEAP_START, 0);
    var m4 := SetPrev(m3, HEAP_START, 0);
    assert m4 == InitBytes(m);
    assert Hdr(m4, HEAP_START) == Header(HEAP_SIZE - HDR, 0, 0, 0);
    forall a | !InHeader(INITIAL, a) ensures Byte(m, a) == Byte(m4, a) {
      assert !(Addr(INITIAL, 0) <= a < Addr(INITIAL, 0) + HDR);
    }
  }

  /** a, b are headers that do not overlap and lie in memory. */
  predicate Apart(m: Mem, a: int, b: int) {
    0 <= a && a + HDR <= |m| && 0 <= b && b + HDR <= |m| && (a + HDR <= b || b + HDR <= a)
  }

  /** r is m with the header at a split: a keeps n bytes and a new free block nb follows it. */
  ghost predicate SplitAt(m: Mem, r: Mem, a: int, n: nat) {
    var h, nb := Hdr(m, a), a + HDR + n;
    && |r| == |m|
    && n + HDR <= h.size && nb < 0x1_0000_0000
    && 0 <= a
    && Hdr(r, a) == Header(n, 1, nb, h.prev)
    && Hdr(r, nb) == Header(h.size - n - HDR, 0, h.next, a)
    && (h.next != 0 ==> Hdr(r, h.next) == Hdr(m, h.next).(prev := nb))
    && forall b | Apart(m, a, b) && Apart(m, nb, b) && (h.next != 0 ==> Apart(m, h.next, b)) :: Hdr(r, b) == Hdr(m, b)
  }

  lemma CarveHeaders(m: Mem, a: uint32, n: nat)
    requires |m| <= RAM_SIZE
    requires Hdr(m, a).size >= n + HDR + 4 && Apart(m, a, a + HDR + n)
    requires Hdr(m, a).next != 0 ==> Apart(m, a, Hdr(m, a).next) && Apart(m, a + HDR + n, Hdr(m, a).next)
    ensures SplitAt(m, CarveBytes(m, a, n), a, n)
  {
    hide Hdr, Word, PutWord, SetSize, SetUsed, SetNext, SetPrev;
    var h, nb, r := Hdr(m, a), a + HDR + n, CarveBytes(m, a, n);
    var x1 := SetSize(m, nb, h.size - n - HDR);
    var x2 := SetUsed(x1, nb, 0);
    var x3 := SetNext(x2, nb, h.next);
    var x4 := SetPrev(x3, nb, a);
    assert Hdr(x4, a) == h && Hdr(x4, nb) == Header(h.size - n - HDR, 0, h.next, a);
    var x5 := if h.next != 0 then SetPrev(x4, h.next, nb) else x4;
    assert Hdr(x5, a) == h && Hdr(x5, nb) == Hdr(x4, nb);
    var x7 := SetSize(SetNext(x5, a, nb), a, n);
    assert r == SetUsed(x7, a, 1);
  }

  /** A splitting CarveBytes touches three headers and nothing else. */
  lemma CarveFrame(m: Mem, a: uint32, n: nat, b: int)
    requires |m| <= RAM_SIZE
    requires Hdr(m, a).size >= n + HDR + 4 && Apart(m, a, a + HDR + n)
    requires Hdr(m, a).next != 0 ==> Apart(m, a, Hdr(m, a).next) && Apart(m, a + HDR + n, Hdr(m, a).next)
    requires b < a || a + HDR <= b
    requires b < a + HDR + n || a + HDR + n + HDR <= b
    requires Hdr(m, a).next != 0 ==> b < Hdr(m, a).next || Hdr(m, a).next + HDR <= b
    ensures Byte(CarveBytes(m, a, n), b) == Byte(m, b)
  {
    hide Hdr, Word, Byte, PutWord, SetSize, SetUsed, SetNext, SetPrev;
    var h, nb, r := Hdr(m, a), a + HDR + n, CarveBytes(m, a, n);
    var x1 := SetSize(m, nb, h.size - n - HDR);
    var x2 := SetUsed(x1, nb, 0);
    var x4 := SetPrev(SetNext(x2, nb, h.next), nb, a);
    assert Hdr(x2, a) == h && Hdr(x4, a) == h;
    assert Byte(x4, b) == Byte(m, b);
  }

  lemma BlocksApart(m: Mem, bs: Blocks, i: nat, j: nat)
    requires |m| == RAM_SIZE && Tiles(bs) && i < |bs| && j < |bs| && i != j
    ensures Apart(m, Addr(bs, i), Addr(bs, j))
  {
    AddrInside(bs, i);
    AddrInside(bs, j);
    HeaderApart(bs, i, j);
  }

  lemma CarveRep(m: Mem, bs: Blocks, i: nat, n: nat)
    requires Rep(m, bs) && WellFormed(bs) && i < |bs| && Fits(bs[i], n)
    ensures Addr(bs, i) < RAM_SIZE
    ensures Rep(CarveBytes(m, Addr(bs, i), n), Carve(bs, i, n))
    ensures SameOffHeaders(m, CarveBytes(m, Addr(bs, i), n), Carve(bs, i, n))
  {
    AddrInside(bs, i);
    CarveWellFormed(bs, i, n);
    if bs[i].size >= n + HDR + 4 {
      CarveSplitRep(m, bs, i, n);
    } else {
      CarveWholeRep(m, bs, i, n);
    }
  }

  lemma CarveWholeRep(m: Mem, bs: Blocks, i: nat, n: nat)
    requires Rep(m, bs) && i < |bs| && Fits(bs[i], n) && bs[i].size < n + HDR + 4
    requires Addr(bs, i) < RAM_SIZE && Tiles(Carve(bs, i, n))
    ensures Rep(CarveBytes(m, Addr(bs, i), n), Carve(bs, i, n))
    ensures SameOffHeaders(m, CarveBytes(m, Addr(bs, i), n), Carve(bs, i, n))
  {
    hide Hdr, Word, SetUsed, SetSize, SetNext, SetPrev, Addr;
    var cs, r := Carve(bs, i, n), CarveBytes(m, Addr(bs, i), n);
    CarveAddr(bs, i, n);
    assert Hdr(m, Addr(bs, i)) == Links(bs, i);
    assert r == SetUsed(m, Addr(bs, i), 1);
    forall j | 0 <= j < |cs| ensures Hdr(r, Addr(cs, j)) == Links(cs, j) {
      if j != i {
        BlocksApart(m, bs, i, j);
        assert Hdr(m, Addr(bs, j)) == Links(bs, j);
      } else {
        AddrInside(bs, i);
      }
    }
    forall b | !InHeader(cs, b) ensures Byte(m, b) == Byte(r, b) {
      assert !(Addr(cs, i) <= b < Addr(cs, i) + HDR);
    }
  }

  lemma CarveSplitRep(m: Mem, bs: Blocks, i: nat, n: nat)
    requires Rep(m, bs) && i < |bs| && Fits(bs[i], n) && bs[i].size >= n + HDR + 4
    requires Addr(bs, i) < RAM_SIZE && Tiles(Carve(bs, i, n))
    ensures Rep(CarveBytes(m, Addr(bs, i), n), Carve(bs, i, n))
    ensures SameOffHeaders(m, CarveBytes(m, Addr(bs, i), n), Carve(bs, i, n))
  {
    hide Hdr, Addr, CarveBytes;
    var a := Addr(bs, i);
    var cs, r := Carve(bs, i, n), CarveBytes(m, a, n);
    CarveAddr(bs, i, n);
    AddrStep(cs, i);
    assert Hdr(m, a) == Links(bs, i);
    BlocksApart(m, cs, i, i + 1);
    if i + 1 < |bs| {
      assert Addr(cs, i + 1 + |cs| - |bs|) == Addr(bs, i + 1);
      BlocksApart(m, cs, i, i + 2);
      BlocksApart(m, cs, i + 1, i + 2);
    }
    CarveHeaders(m, a, n);
    forall j | 0 <= j < |cs| ensures Hdr(r, Addr(cs, j)) == Links(cs, j) {
      CarveSplitAt(m, r, bs, i, n, j);
    }
    forall b | !InHeader(cs, b) ensures Byte(m, b) == Byte(r, b) {
      assert !(Addr(cs, i) <= b < Addr(cs, i) + HDR);
      assert !(Addr(cs, i + 1) <= b < Addr(cs, i + 1) + HDR);
      if i + 1 < |bs| {
        assert !(Addr(cs, i + 2) <= b < Addr(cs, i + 2) + HDR);
      }
      CarveFrame(m, a, n, b);
    }
  }

  lemma CarveSplitAt(m: Mem, r: Mem, bs: Blocks, i: nat, n: nat, j: nat)
    requires Rep(m, bs) && i < |bs| && Fits(bs[i], n) && bs[i].size >= n + HDR + 4
    requires Tiles(Carve(bs, i, n)) && j < |Carve(bs, i, n)|
    requires SplitAt(m, r, Addr(bs, i), n)
    ensures Hdr(r, Addr(Carve(bs, i, n), j)) == Links(Carve(bs, i, n), j)
  {
    hide Hdr, Addr;
    var cs := Carve(bs, i, n);
    CarveAddr(bs, i, n);
    AddrStep(cs, i);
    assert Hdr(m, Addr(bs, i)) == Links(bs, i);
    assert Addr(cs, i) == Addr(bs, i);
    assert |cs| == |bs| + 1;
    if i + 1 < |bs| {
      assert Addr(cs, i + 1 + |cs| - |bs|) == Addr(bs, i + 1);
    }
    if j < i || j > i + 2 {
      BlocksApart(m, cs, i, j);
      BlocksApart(m, cs, i + 1, j);
      if i + 1 < |bs| { BlocksApart(m, cs, i + 2, j); }
    }
    if j < i {
      assert Hdr(m, Addr(bs, j)) == Links(bs, j);
    } else if j >= i + 2 {
      CarvedLinks(bs, i, n, j);
      assert Hdr(m, Addr(bs, j - 1)) == Links(bs, j - 1);
    }
  }

  /** Past the split the blocks keep their addresses and links, one position on; the first of them
      is linked back to the new block. */
  lemma CarvedLinks(bs: Blocks, i: nat, n: nat, j: nat)
    requires Tiles(bs) && i < |bs| && Fits(bs[i], n) && bs[i].size >= n + HDR + 4
    requires Tiles(Carve(bs, i, n)) && i + 2 <= j < |Carve(bs, i, n)|
    ensures var cs := Carve(bs, i, n);
      && j - 1 < |bs| && Addr(cs, j) == Addr(bs, j - 1)
      && Links(cs, j) == if j == i + 2 then Links(bs, j - 1).(prev := Addr(cs, i + 1)) else Links(bs, j - 1)
  {
    hide Addr;
    var cs := Carve(bs, i, n);
    CarveAddr(bs, i, n);
    assert |cs| == |bs| + 1 && cs[j] == bs[j - 1];
    assert Addr(cs, j - 1 + |cs| - |bs|) == Addr(bs, j - 1);
    assert j > i + 2 ==> Addr(cs, j - 2 + |cs| - |bs|) == Addr(bs, j - 2);
    assert j + 1 < |cs| ==> Addr(cs, j + |cs| - |bs|) == Addr(bs, j);
    AddrInside(cs, i + 1);
  }

  lemma ReleaseRep(m: Mem, bs: Blocks, i: nat)
    requires Rep(m, bs) && i < |bs|
    ensures Rep(SetUsed(m, Addr(bs, i), 0), Release(bs, i))
    ensures SameOffHeaders(m, SetUsed(m, Addr(bs, i), 0), bs)
  {
    hide Hdr, Addr;
    var cs, r := Release(bs, i), SetUsed(m, Addr(bs, i), 0);
    forall j | 0 <= j <= |bs| ensures Addr(cs, j) == Addr(bs, j) {
      ReleaseAddr(bs, i, j);
    }
    AddrInside(bs, i);
    forall j | 0 <= j < |cs| ensures Hdr(r, Addr(cs, j)) == Links(cs, j) {
      assert Hdr(m, Addr(bs, j)) == Links(bs, j);
      if j != i {
        BlocksApart(m, bs, i, j);
      }
    }
    forall b | !InHeader(bs, b) ensures Byte(m, b) == Byte(r, b) {
      assert !(Addr(bs, i) <= b < Addr(bs, i) + HDR);
    }
  }

  /** r is m after block p has absorbed its neighbour b, whose successor is nx. */
  ghost predicate AbsorbAt(m: Mem, r: Mem, p: int, b: int) {
    var size, nx := Hdr(m, p).size + HDR + Hdr(m, b).size, Hdr(m, b).next;
    && |r| == |m|
    && size < 0x1_0000_0000 && 0 <= p < 0x1_0000_0000
    && Hdr(r, p) == Hdr(m, p).(size := size, next := nx)
    && (nx != 0 ==> Hdr(r, nx) == Hdr(m, nx).(prev := p))
    && (forall c | Apart(m, p, c) && (nx != 0 ==> Apart(m, nx, c)) :: Hdr(r, c) == Hdr(m, c))
    && (forall a | (a < p || p + HDR <= a) && (nx != 0 ==> a < nx || nx + HDR <= a) :: Byte(r, a) == Byte(m, a))
  }

  lemma AbsorbHeaders(m: Mem, p: uint32, b: uint32)
    requires Apart(m, p, b) && Hdr(m, p).size + HDR + Hdr(m, b).size < 0x1_0000_0000
    requires Hdr(m, b).next != 0 ==> Apart(m, p, Hdr(m, b).next) && Apart(m, b, Hdr(m, b).next)
    ensures AbsorbAt(m, Absorb(m, p, b), p, b)
  {
    hide Hdr, Word, Byte, PutWord, SetSize, SetUsed, SetNext, SetPrev;
    var m1 := SetSize(m, p, Hdr(m, p).size + HDR + Hdr(m, b).size);
    assert Hdr(m1, b) == Hdr(m, b);
  }

  lemma AbsorbRep(m: Mem, bs: Blocks, i: nat)
    requires Rep(m, bs) && i + 1 < |bs| && !bs[i].used && !bs[i + 1].used
    ensures Addr(bs, i) < RAM_SIZE && Addr(bs, i + 1) < RAM_SIZE
    ensures Rep(Absorb(m, Addr(bs, i), Addr(bs, i + 1)), Merge(bs, i))
    ensures SameOffHeaders(m, Absorb(m, Addr(bs, i), Addr(bs, i + 1)), bs)
  {
    hide Hdr, Addr, Absorb;
    AddrInside(bs, i);
    AddrInside(bs, i + 1);
    MergeTiles(bs, i);
    var cs, r := Merge(bs, i), Absorb(m, Addr(bs, i), Addr(bs, i + 1));
    BlocksApart(m, bs, i, i + 1);
    assert Hdr(m, Addr(bs, i)) == Links(bs, i);
    assert Hdr(m, Addr(bs, i + 1)) == Links(bs, i + 1);
    if i + 2 < |bs| {
      BlocksApart(m, bs, i, i + 2);
      BlocksApart(m, bs, i + 1, i + 2);
    }
    AbsorbHeaders(m, Addr(bs, i), Addr(bs, i + 1));
    forall j | 0 <= j < |cs| ensures Hdr(r, Addr(cs, j)) == Links(cs, j) {
      AbsorbIndex(m, r, bs, i, j);
    }
    forall b | !InHeader(bs, b) ensures Byte(m, b) == Byte(r, b) {
      assert !(Addr(bs, i) <= b < Addr(bs, i) + HDR);
      if i + 2 < |bs| {
        assert !(Addr(bs, i + 2) <= b < Addr(bs, i + 2) + HDR);
      }
    }
  }

  lemma AbsorbIndex(m: Mem, r: Mem, bs: Blocks, i: nat, j: nat)
    requires Rep(m, bs) && i + 1 < |bs| && !bs[i].used && !bs[i + 1].used
    requires Tiles(Merge(bs, i)) && j < |bs| - 1
    requires AbsorbAt(m, r, Addr(bs, i), Addr(bs, i + 1))
    ensures Hdr(r, Addr(Merge(bs, i), j)) == Links(Merge(bs, i), j)
  {
    hide Hdr, Addr;
    var cs := Merge(bs, i);
    MergeAddr(bs, i);
    var was := if j <= i then j else j + 1;
    assert Addr(cs, j) == Addr(bs, was);
    assert Hdr(m, Addr(bs, i)) == Links(bs, i);
    assert Hdr(m, Addr(bs, i + 1)) == Links(bs, i + 1);
    assert Hdr(m, Addr(bs, was)) == Links(bs, was);
    assert j + 1 < |cs| && j >= i ==> Addr(cs, j + 2 - 1) == Addr(bs, j + 2);
    assert j > i + 1 ==> Addr(cs, j - 1) == Addr(bs, j);
    if was != i && was != i + 2 {
      BlocksApart(m, bs, i, was);
      if i + 2 < |bs| { BlocksApart(m, bs, i + 2, was); }
    }
  }

  lemma InHeaderMerge(bs: Blocks, i: nat, a: int)
    requires i + 1 < |bs| && InHeader(Merge(bs, i), a)
    ensures InHeader(bs, a)
  {
    hide Addr;
    var cs := Merge(bs, i);
    MergeAddr(bs, i);
    var k :| 0 <= k < |cs| && Addr(cs, k) <= a < Addr(cs, k) + HDR;
    if k > i {
      assert Addr(cs, k + 1 - 1) == Addr(bs, k + 1);
    }
  }

  lemma InHeaderRelease(bs: Blocks, i: nat, a: int)
    requires i < |bs| && InHeader(Release(bs, i), a)
    ensures InHeader(bs, a)
  {
    hide Addr;
    var cs := Release(bs, i);
    var k :| 0 <= k < |cs| && Addr(cs, k) <= a < Addr(cs, k) + HDR;
    ReleaseAddr(bs, i, k);
  }

  /** kfree on the bytes is Free on the list, and touches headers only. */
  lemma FreeRep(m: Mem, bs: Blocks, i: nat)
    requires Rep(m, bs) && i < |bs|
    ensures Addr(bs, i) < RAM_SIZE
    ensures Rep(FreeBytes(m, Addr(bs, i)), Free(bs, i))
    ensures SameOffHeaders(m, FreeBytes(m, Addr(bs, i)), bs)
  {
    hide Hdr, Addr, Absorb, SetUsed;
    AddrInside(bs, i);
    var b := Addr(bs, i);
    var bs1, m1 := Release(bs, i), SetUsed(m, b, 0);
    ReleaseRep(m, bs, i);
    ReleaseAddr(bs, i, i);
    assert Hdr(m1, b) == Links(bs1, i);
    var bs2 := MergeNext(bs1, i);
    var nx := Hdr(m1, b).next;
    var m2 := if nx != 0 && Hdr(m1, nx).used == 0 then Absorb(m1, b, nx) else m1;
    if i + 1 < |bs| {
      AddrInside(bs1, i + 1);
      assert Hdr(m1, nx) == Links(bs1, i + 1);
      if !bs1[i + 1].used {
        AbsorbRep(m1, bs1, i);
        MergeAddr(bs1, i);
      }
    }
    assert Rep(m2, bs2) && Addr(bs2, i) == b;
    assert SameOffHeaders(m1, m2, bs1);
    assert Hdr(m2, b) == Links(bs2, i);
    var pv := Hdr(m2, b).prev;
    var m3 := if pv != 0 && Hdr(m2, pv).used == 0 then Absorb(m2, pv, b) else m2;
    if i > 0 {
      AddrInside(bs2, i - 1);
      assert Hdr(m2, pv) == Links(bs2, i - 1);
      if !bs2[i - 1].used {
        AbsorbRep(m2, bs2, i - 1);
      }
    }
    assert SameOffHeaders(m2, m3, bs2);
    assert m3 == FreeBytes(m, b);
    forall a | !InHeader(bs, a) ensures Byte(m, a) == Byte(m3, a) {
      FreeInHeader(bs, i, a);
    }
  }

  lemma FreeInHeader(bs: Blocks, i: nat, a: int)
    requires i < |bs| && !InHeader(bs, a)
    ensures !InHeader(Release(bs, i), a) && !InHeader(MergeNext(Release(bs, i), i), a)
  {
    hide Addr;
    var bs1 := Release(bs, i);
    if InHeader(bs1, a) {
      InHeaderRelease(bs, i, a);
    }
    if InHeader(MergeNext(bs1, i), a) && MergeNext(bs1, i) != bs1 {
      InHeaderMerge(bs1, i, a);
    }
  }

  // ---------- In addresses ----------

  /** The header of block i, field by field, and the tiling from 2 MB to 3 MB. */
  lemma HeaderFields(m: Mem, bs: Blocks, i: nat)
    requires Rep(m, bs) && i < |bs|
    ensures var a := Addr(bs, i);
      && Word(m, a) == bs[i].size && Byte(m, a + 4) == (if bs[i].used then 1 else 0)
      && Word(m, a + 5) == (if i + 1 < |bs| then a + 13 + bs[i].size else 0)
      && Word(m, a + 9) == (if i > 0 then a - 13 - bs[i - 1].size else 0)
      && a + 13 + bs[i].size == if i + 1 < |bs| then Addr(bs, i + 1) else 0x30_0000
    ensures Addr(bs, 0) == 0x20_0000
  {
    hide Word;
    assert Hdr(m, Addr(bs, i)) == Links(bs, i);
    AddrStep(bs, i);
    if i > 0 {
      AddrStep(bs, i - 1);
    }
  }
}
