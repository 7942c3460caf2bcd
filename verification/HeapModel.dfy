/** The heap as a state machine over its bytes, and what holds of every run of it. */
module HeapModel {
  import opened Bytes
  import opened HeapList
  import opened HeapBytes

  datatype HeapState = HeapState(mem: Mem, blocks: Blocks)

  ghost predicate Good(h: HeapState) {
    Rep(h.mem, h.blocks) && Coalesced(h.blocks)
  }

  function HeapInit(m: Mem): HeapState {
    HeapState(InitBytes(m), INITIAL)
  }

  /** kmalloc: the new state and the pointer returned. */
  function Kmalloc(h: HeapState, size: uint32): (HeapState, uint32) {
    if size == 0 then (h, 0)
    else
      var n := RoundUp(size);
      var i := FirstFit(h.blocks, n);
      if i == |h.blocks| then (h, 0)
      else
        var a := Wrap32(Addr(h.blocks, i));
        (HeapState(CarveBytes(h.mem, a, n), Carve(h.blocks, i, n)), Wrap32(a + HDR))
  }

  /** Block k is in use and its payload is the size bytes at p. */
  ghost predicate OwnsAt(bs: Blocks, p: int, size: int, k: int) {
    0 <= k < |bs| && bs[k].used && Addr(bs, k) + HDR == p && bs[k].size == size
  }

  /** Some block in use has exactly the payload [p, p + size). */
  ghost predicate Owns(bs: Blocks, p: int, size: int) {
    exists k :: OwnsAt(bs, p, size, k)
  }

  ghost predicate Live(bs: Blocks, p: int) {
    exists k, size :: OwnsAt(bs, p, size, k)
  }

  ghost predicate OwnsBetween(bs: Blocks, p: int, lo: int, hi: int) {
    exists s :: lo <= s <= hi && Owns(bs, p, s)
  }

  ghost function IndexOf(bs: Blocks, p: int): (k: nat)
    requires Live(bs, p)
    ensures k < |bs| && OwnsAt(bs, p, bs[k].size, k)
  {
    var k, size :| OwnsAt(bs, p, size, k);
    k
  }

  /** kfree of the null pointer or of a live one. */
  ghost function Kfree(h: HeapState, p: uint32): HeapState
    requires p == 0 || Live(h.blocks, p)
  {
    if p == 0 then h
    else
      HeapState(FreeBytes(h.mem, Wrap32(p - HDR)), Free(h.blocks, IndexOf(h.blocks, p)))
  }

  // ---------- Who owns what ----------

  lemma OwnsUnique(bs: Blocks, p: int, s: int, t: int, k: int, l: int)
    requires OwnsAt(bs, p, s, k) && OwnsAt(bs, p, t, l)
    ensures k == l && s == t
  {
    AddrInjective(bs, k, l);
  }

  /** Live payloads lie inside the managed region, away from every header and from each other. */
  lemma PayloadsDisjoint(bs: Blocks, p: int, s: int, q: int, t: int)
    requires Tiles(bs) && Owns(bs, p, s)
    ensures HEAP_START + HDR <= p && p + s <= HEAP_END
    ensures forall a :: p <= a < p + s ==> !InHeader(bs, a)
    ensures Owns(bs, q, t) && p != q ==> p + s <= q || q + t <= p
  {
    hide Addr;
    var k :| OwnsAt(bs, p, s, k);
    AddrInside(bs, k);
    forall a | p <= a < p + s ensures !InHeader(bs, a) {
      if InHeader(bs, a) {
        var j :| 0 <= j < |bs| && Addr(bs, j) <= a < Addr(bs, j) + HDR;
        if j < k { AddrApart(bs, j, k); } else if j > k { AddrApart(bs, k, j); }
      }
    }
    if Owns(bs, q, t) && p != q {
      var l :| OwnsAt(bs, q, t, l);
      if l < k { AddrApart(bs, l, k); } else { AddrApart(bs, k, l); }
    }
  }

  lemma CarveOwns(bs: Blocks, i: nat, n: nat, p: int, s: int)
    requires i < |bs| && Fits(bs[i], n)
    ensures Owns(Carve(bs, i, n), p, s) <==>
      Owns(bs, p, s) || (p == Addr(bs, i) + HDR && s == Taken(bs[i], n)[0].size)
  {
    hide Addr, Carve;
    CarveOwned(bs, i, n, p, s);
    if Owns(Carve(bs, i, n), p, s) {
      CarveOwner(bs, i, n, p, s);
    }
  }

  /** Taking block i keeps every owner and adds one. */
  lemma CarveOwned(bs: Blocks, i: nat, n: nat, p: int, s: int)
    requires i < |bs| && Fits(bs[i], n)
    ensures Owns(bs, p, s) ==> Owns(Carve(bs, i, n), p, s)
    ensures p == Addr(bs, i) + HDR && s == Taken(bs[i], n)[0].size ==> Owns(Carve(bs, i, n), p, s)
  {
    hide Addr;
    var cs := Carve(bs, i, n);
    var d := |cs| - |bs|;
    CarveAddr(bs, i, n);
    if Owns(bs, p, s) {
      var k :| OwnsAt(bs, p, s, k);
      if k < i {
        assert OwnsAt(cs, p, s, k);
      } else {
        assert Addr(cs, k + d) == Addr(bs, k);
        assert OwnsAt(cs, p, s, k + d);
      }
    }
    if p == Addr(bs, i) + HDR && s == Taken(bs[i], n)[0].size {
      assert OwnsAt(cs, p, s, i);
    }
  }

  lemma CarveOwner(bs: Blocks, i: nat, n: nat, p: int, s: int)
    requires i < |bs| && Fits(bs[i], n) && Owns(Carve(bs, i, n), p, s)
    ensures Owns(bs, p, s) || (p == Addr(bs, i) + HDR && s == Taken(bs[i], n)[0].size)
  {
    hide Addr;
    var cs := Carve(bs, i, n);
    var d := |cs| - |bs|;
    CarveAddr(bs, i, n);
    var k :| OwnsAt(cs, p, s, k);
    if k > i && k > i + d {
      assert Addr(cs, k - d + d) == Addr(bs, k - d);
      assert cs[k] == bs[k - d];
      assert OwnsAt(bs, p, s, k - d);
    } else if k < i {
      assert OwnsAt(bs, p, s, k);
    }
  }

  lemma MergeOwns(bs: Blocks, i: nat, p: int, s: int)
    requires i + 1 < |bs| && !bs[i].used && !bs[i + 1].used
    ensures Owns(Merge(bs, i), p, s) <==> Owns(bs, p, s)
  {
    hide Addr;
    var cs := Merge(bs, i);
    MergeAddr(bs, i);
    if Owns(cs, p, s) {
      var k :| OwnsAt(cs, p, s, k);
      if k > i {
        assert Addr(cs, k + 1 - 1) == Addr(bs, k + 1);
        assert OwnsAt(bs, p, s, k + 1);
      } else {
        assert OwnsAt(bs, p, s, k);
      }
    }
    if Owns(bs, p, s) {
      var k :| OwnsAt(bs, p, s, k);
      if k > i {
        assert OwnsAt(cs, p, s, k - 1);
      } else {
        assert OwnsAt(cs, p, s, k);
      }
    }
  }

  lemma ReleaseOwns(bs: Blocks, i: nat, p: int, s: int)
    requires i < |bs|
    ensures Owns(Release(bs, i), p, s) <==> Owns(bs, p, s) && p != Addr(bs, i) + HDR
  {
    hide Addr;
    var cs := Release(bs, i);
    forall k | 0 <= k < |bs| ensures Addr(cs, k) == Addr(bs, k) {
      ReleaseAddr(bs, i, k);
    }
    if Owns(cs, p, s) {
      var k :| OwnsAt(cs, p, s, k);
      assert OwnsAt(bs, p, s, k);
      if p == Addr(bs, i) + HDR {
        AddrInjective(bs, k, i);
      }
    }
    if Owns(bs, p, s) && p != Addr(bs, i) + HDR {
      var k :| OwnsAt(bs, p, s, k);
      assert OwnsAt(cs, p, s, k);
    }
  }

  /** Freeing a block makes exactly its own payload not live. */
  lemma FreeOwns(bs: Blocks, i: nat, p: int, s: int)
    requires i < |bs|
    ensures Owns(Free(bs, i), p, s) <==> Owns(bs, p, s) && p != Addr(bs, i) + HDR
  {
    hide Addr, Owns;
    var bs1 := Release(bs, i);
    ReleaseOwns(bs, i, p, s);
    var bs2 := MergeNext(bs1, i);
    if i + 1 < |bs1| && !bs1[i + 1].used {
      MergeOwns(bs1, i, p, s);
    }
    if i > 0 && !bs2[i - 1].used {
      MergeOwns(bs2, i - 1, p, s);
    }
  }

  /** Memory m' differs from h's in no header, so it represents the same heap. */
  lemma SameHeadersGood(h: HeapState, m': Mem)
    requires Good(h) && |m'| == |h.mem|
    requires forall a :: InHeader(h.blocks, a) ==> Byte(m', a) == Byte(h.mem, a)
    ensures Good(HeapState(m', h.blocks))
  {
    hide Addr, Hdr;
    forall i | 0 <= i < |h.blocks| ensures Hdr(m', Addr(h.blocks, i)) == Links(h.blocks, i) {
      assert Hdr(h.mem, Addr(h.blocks, i)) == Links(h.blocks, i);
      HdrSame(h.mem, m', Addr(h.blocks, i));
    }
  }

  /** Writing inside a live payload changes neither the heap nor any other payload. */
  lemma PayloadWrite(h: HeapState, m': Mem, p: int, s: int, lo: int, hi: int)
    requires Good(h) && Owns(h.blocks, p, s) && p <= lo && hi <= p + s
    requires SameOutside(h.mem, m', lo, hi)
    ensures Good(HeapState(m', h.blocks))
    ensures forall q, t :: Owns(h.blocks, q, t) && q != p ==> SameOn(h.mem, m', q, q + t)
  {
    hide Addr, Hdr, Owns, InHeader;
    PayloadsDisjoint(h.blocks, p, s, p, s);
    SameHeadersGood(h, m');
    forall q, t | Owns(h.blocks, q, t) && q != p ensures SameOn(h.mem, m', q, q + t) {
      PayloadsDisjoint(h.blocks, p, s, q, t);
    }
  }

  // ---------- One operation ----------

  /** No byte of the payload [p, p + size) differs. */
  ghost predicate SamePayload(h: HeapState, h': HeapState, p: int, size: int) {
    SameOn(h.mem, h'.mem, p, p + size)
  }

  /** kmalloc keeps the heap good and every live payload as it was. It returns null exactly when
      the request is empty or no free block is large enough; a pointer it returns was not live
      before and is live afterwards, with at least the rounded size and at most 16 bytes more. */
  lemma KmallocCorrect(h: HeapState, size: uint32)
    requires Good(h)
    ensures var (h', p) := Kmalloc(h, size);
      && Good(h')
      && (p == 0 <==> size == 0 || forall j :: 0 <= j < |h.blocks| ==> !Fits(h.blocks[j], RoundUp(size)))
      && (p == 0 ==> h' == h)
      && (p != 0 ==> !Live(h.blocks, p)
                     && OwnsBetween(h'.blocks, p, RoundUp(size), RoundUp(size) + 16))
      && (forall q, s :: Owns(h.blocks, q, s) ==> Owns(h'.blocks, q, s) && SamePayload(h, h', q, s))
      && (forall q, s :: Owns(h'.blocks, q, s) ==> q == p || Owns(h.blocks, q, s))
  {
    hide Addr, CarveBytes, Carve;
    var bs, n := h.blocks, RoundUp(size);
    var i := FirstFit(bs, n);
    if size != 0 && i < |bs| {
      var (h', p) := Kmalloc(h, size);
      CarveRep(h.mem, bs, i, n);
      CarveWellFormed(bs, i, n);
      assert p == Addr(bs, i) + HDR;
      KmallocOwns(h, i, n);
      if Live(bs, p) {
        var k, s :| OwnsAt(bs, p, s, k);
        AddrInjective(bs, k, i);
      }
    }
  }

  lemma KmallocOwns(h: HeapState, i: nat, n: nat)
    requires Good(h) && i < |h.blocks| && Fits(h.blocks[i], n)
    requires SameOffHeaders(h.mem, CarveBytes(h.mem, Wrap32(Addr(h.blocks, i)), n), Carve(h.blocks, i, n))
    requires Tiles(Carve(h.blocks, i, n))
    ensures var h' := HeapState(CarveBytes(h.mem, Wrap32(Addr(h.blocks, i)), n), Carve(h.blocks, i, n));
      && (forall q, s :: Owns(h.blocks, q, s) ==> Owns(h'.blocks, q, s) && SamePayload(h, h', q, s))
      && (forall q, s :: Owns(h'.blocks, q, s) ==> q == Addr(h.blocks, i) + HDR || Owns(h.blocks, q, s))
      && OwnsBetween(h'.blocks, Addr(h.blocks, i) + HDR, n, n + 16)
  {
    hide Addr, CarveBytes, Carve, Owns;
    var bs := h.blocks;
    var h' := HeapState(CarveBytes(h.mem, Wrap32(Addr(bs, i)), n), Carve(bs, i, n));
    forall q, s | Owns(bs, q, s) ensures Owns(h'.blocks, q, s) && SamePayload(h, h', q, s) {
      CarveOwns(bs, i, n, q, s);
      PayloadsDisjoint(h'.blocks, q, s, q, s);
    }
    forall q, s | Owns(h'.blocks, q, s) ensures q == Addr(bs, i) + HDR || Owns(bs, q, s) {
      CarveOwns(bs, i, n, q, s);
    }
    var s := Taken(bs[i], n)[0].size;
    CarveOwns(bs, i, n, Addr(bs, i) + HDR, s);
    assert n <= s <= n + 16 && Owns(h'.blocks, Addr(bs, i) + HDR, s);
  }

  /** kfree of a live pointer keeps the heap good, makes exactly that payload not live and leaves
      every other live payload as it was. */
  lemma KfreeCorrect(h: HeapState, p: uint32)
    requires Good(h) && Live(h.blocks, p)
    ensures var h' := Kfree(h, p);
      && Good(h')
      && (forall q, s :: Owns(h'.blocks, q, s) <==> Owns(h.blocks, q, s) && q != p)
      && (forall q, s :: Owns(h'.blocks, q, s) ==> SamePayload(h, h', q, s))
  {
    hide Addr, FreeBytes, Free, Owns;
    var bs := h.blocks;
    var i := IndexOf(bs, p);
    var h' := Kfree(h, p);
    AddrInside(bs, i);
    FreeRep(h.mem, bs, i);
    FreeWellFormed(bs, i);
    forall q, s ensures Owns(h'.blocks, q, s) <==> Owns(bs, q, s) && q != p {
      FreeOwns(bs, i, q, s);
    }
    forall q, s | Owns(h'.blocks, q, s) ensures SamePayload(h, h', q, s) {
      assert Owns(bs, q, s);
      PayloadsDisjoint(bs, q, s, q, s);
    }
  }

  /** kfree undoes kmalloc: the block list, hence every header and every link, is as before, and
      no other live payload has changed. */
  lemma KfreeKmalloc(h: HeapState, size: uint32)
    requires Good(h) && Kmalloc(h, size).1 != 0
    ensures var (h1, p) := Kmalloc(h, size);
      && Live(h1.blocks, p)
      && Good(Kfree(h1, p))
      && Kfree(h1, p).blocks == h.blocks
      && forall q, s :: Owns(h.blocks, q, s) ==> SamePayload(h, Kfree(h1, p), q, s)
  {
    hide Addr, CarveBytes, Carve, FreeBytes, Free, Owns;
    var (h1, p) := Kmalloc(h, size);
    var bs, n := h.blocks, RoundUp(size);
    var i := FirstFit(bs, n);
    KmallocCorrect(h, size);
    CarveAt(bs, i, n);
    AddrInside(bs, i);
    OwnsUnique(h1.blocks, p, h1.blocks[i].size, h1.blocks[IndexOf(h1.blocks, p)].size, i, IndexOf(h1.blocks, p));
    FreeMalloc(bs, n);
    KfreeCorrect(h1, p);
  }

  lemma CarveAt(bs: Blocks, i: nat, n: nat)
    requires i < |bs| && Fits(bs[i], n)
    ensures i < |Carve(bs, i, n)| && OwnsAt(Carve(bs, i, n), Addr(bs, i) + HDR, Carve(bs, i, n)[i].size, i)
  {
    CarveAddr(bs, i, n);
  }

  /** A pointer returned by kmalloc has room for the request exactly when the request is at most
      0xFFFFFFFC: rounding a larger one up wraps to zero, and the block may then be empty. */
  lemma KmallocServesIff(h: HeapState, size: uint32)
    requires Good(h) && Kmalloc(h, size).1 != 0
    ensures var (h', p) := Kmalloc(h, size);
      OwnsBetween(h'.blocks, p, size, HEAP_SIZE) <==> size <= 0xFFFF_FFFC
  {
    hide Addr, Kmalloc, Owns;
    KmallocCorrect(h, size);
    var (h', p) := Kmalloc(h, size);
    var s :| RoundUp(size) <= s <= RoundUp(size) + 16 && Owns(h'.blocks, p, s);
    PayloadsDisjoint(h'.blocks, p, s, p, s);
    if t :| size <= t <= HEAP_SIZE && Owns(h'.blocks, p, t) {
      OwnsSize(h'.blocks, p, s, t);
    }
  }

  /** kmalloc(0xFFFFFFFF) on a fresh heap rounds to 0 and hands out a pointer. */
  lemma KmallocHuge(m: Mem)
    requires |m| == RAM_SIZE
    ensures Kmalloc(HeapInit(m), 0xFFFF_FFFF).1 == HEAP_START + HDR
  {
    hide InitBytes, CarveBytes;
    assert Fits(INITIAL[0], 0);
  }

  lemma OwnsSize(bs: Blocks, p: int, s: int, t: int)
    requires Owns(bs, p, s) && Owns(bs, p, t)
    ensures s == t
  {
    hide Addr;
    var k :| OwnsAt(bs, p, s, k);
    var l :| OwnsAt(bs, p, t, l);
    OwnsUnique(bs, p, s, t, k, l);
  }

  // ---------- Memory outside the heap ----------

  lemma HeadersInside(m: Mem, m': Mem, bs: Blocks)
    requires Tiles(bs) && SameOffHeaders(m, m', bs)
    ensures SameOutside(m, m', HEAP_START, HEAP_END)
  {
    hide Addr;
    AllInside(bs);
  }

  /** kmalloc and kfree write nothing outside the managed region. */
  lemma KmallocInside(h: HeapState, size: uint32)
    requires Good(h)
    ensures SameOutside(h.mem, Kmalloc(h, size).0.mem, HEAP_START, HEAP_END)
  {
    hide Addr, CarveBytes, Carve, Hdr;
    var bs, n := h.blocks, RoundUp(size);
    var i := FirstFit(bs, n);
    if size != 0 && i < |bs| {
      CarveRep(h.mem, bs, i, n);
      HeadersInside(h.mem, CarveBytes(h.mem, Addr(bs, i), n), Carve(bs, i, n));
    }
  }

  lemma KfreeInside(h: HeapState, p: uint32)
    requires Good(h) && Live(h.blocks, p)
    ensures SameOutside(h.mem, Kfree(h, p).mem, HEAP_START, HEAP_END)
  {
    hide Addr, FreeBytes, Free, Owns, Hdr;
    FreeRep(h.mem, h.blocks, IndexOf(h.blocks, p));
    if p != 0 {
      AddrInside(h.blocks, IndexOf(h.blocks, p));
      HeadersInside(h.mem, FreeBytes(h.mem, Addr(h.blocks, IndexOf(h.blocks, p))), h.blocks);
    }
  }
}
