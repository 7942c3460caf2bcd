/** The heap as its list of blocks in address order: what kmalloc and kfree mean, without bytes.

    A block is a 13-byte header followed by `size` payload bytes, so the list alone determines
    every address. The byte-level code is tied to these functions in HeapBytes and Heap. */
module HeapList {

  const HEAP_START := 0x20_0000
  const HEAP_SIZE := 0x10_0000
  const HEAP_END := HEAP_START + HEAP_SIZE
  /** sizeof(block_header_t), a packed structure. */
  const HDR := 13

  datatype Block = Block(size: nat, used: bool)
  type Blocks = seq<Block>

  const INITIAL: Blocks := [Block(HEAP_SIZE - HDR, false)]

  /** The bytes a list of blocks occupies, headers included. */
  function Span(bs: Blocks): (r: nat)
    ensures r >= HDR * |bs|
  {
    if bs == [] then 0 else Span(bs[..|bs| - 1]) + HDR + bs[|bs| - 1].size
  }

  /** Address of the header of block i; the address of block |bs| is the end of the last one. */
  function Addr(bs: Blocks, i: nat): (r: nat)
    requires i <= |bs|
    ensures r >= HEAP_START + HDR * i
  {
    HEAP_START + Span(bs[..i])
  }

  /** The blocks tile the managed region exactly. */
  ghost predicate Tiles(bs: Blocks) {
    bs != [] && Addr(bs, |bs|) == HEAP_END
  }

  /** No two neighbours are both free. */
  ghost predicate Coalesced(bs: Blocks) {
    forall i :: 0 <= i < |bs| - 1 ==> bs[i].used || bs[i + 1].used
  }

  ghost predicate WellFormed(bs: Blocks) {
    Tiles(bs) && Coalesced(bs)
  }

  predicate Fits(b: Block, n: nat) {
    !b.used && b.size >= n
  }

  /** Index of the first free block of at least n bytes, or |bs|. */
  function FirstFit(bs: Blocks, n: nat): (i: nat)
    ensures i <= |bs|
    ensures i < |bs| ==> Fits(bs[i], n)
    ensures forall j :: 0 <= j < i ==> !Fits(bs[j], n)
  {
    if bs == [] then 0 else if Fits(bs[0], n) then 0 else 1 + FirstFit(bs[1..], n)
  }

  /** What block i becomes when n bytes are taken from it: split if header and 4 bytes are left. */
  function Taken(b: Block, n: nat): Blocks
    requires Fits(b, n)
  {
    if b.size >= n + HDR + 4 then [Block(n, true), Block(b.size - n - HDR, false)]
    else [Block(b.size, true)]
  }

  function Carve(bs: Blocks, i: nat, n: nat): Blocks
    requires i < |bs| && Fits(bs[i], n)
  {
    bs[..i] + Taken(bs[i], n) + bs[i + 1..]
  }

  /** The list after an allocation of n bytes; unchanged when nothing fits. */
  function Malloc(bs: Blocks, n: nat): Blocks {
    var i := FirstFit(bs, n);
    if i < |bs| then Carve(bs, i, n) else bs
  }

  /** Merge blocks i and i + 1 into one free block that also owns the second header. */
  function Merge(bs: Blocks, i: nat): Blocks
    requires i + 1 < |bs|
  {
    bs[..i] + [Block(bs[i].size + HDR + bs[i + 1].size, false)] + bs[i + 2..]
  }

  function Release(bs: Blocks, i: nat): Blocks
    requires i < |bs|
  {
    bs[i := bs[i].(used := false)]
  }

  function MergeNext(bs: Blocks, i: nat): Blocks
    requires i < |bs|
  {
    if i + 1 < |bs| && !bs[i + 1].used then Merge(bs, i) else bs
  }

  function MergePrev(bs: Blocks, i: nat): Blocks
    requires i < |bs|
  {
    if i > 0 && !bs[i - 1].used then Merge(bs, i - 1) else bs
  }

  /** The list after freeing block i. */
  function Free(bs: Blocks, i: nat): Blocks
    requires i < |bs|
  {
    MergePrev(MergeNext(Release(bs, i), i), i)
  }

  // ---------- Addresses ----------

  lemma {:induction false} SpanConcat(a: Blocks, b: Blocks)
    ensures Span(a + b) == Span(a) + Span(b)
  {
    if b == [] {
      assert a + b == a;
    } else {
      assert (a + b)[..|a + b| - 1] == a + b[..|b| - 1];
      SpanConcat(a, b[..|b| - 1]);
    }
  }

  lemma AddrStep(bs: Blocks, i: nat)
    requires i < |bs|
    ensures Addr(bs, i + 1) == Addr(bs, i) + HDR + bs[i].size
  {
    assert bs[..i + 1][..i] == bs[..i];
  }

  lemma AddrBetween(bs: Blocks, i: nat, j: nat)
    requires i <= j <= |bs|
    ensures Addr(bs, j) == Addr(bs, i) + Span(bs[i..j])
  {
    assert bs[..j] == bs[..i] + bs[i..j];
    SpanConcat(bs[..i], bs[i..j]);
  }

  /** Headers and payloads of different blocks do not meet. */
  lemma AddrApart(bs: Blocks, i: nat, j: nat)
    requires i < j <= |bs|
    ensures Addr(bs, i) + HDR + bs[i].size <= Addr(bs, j)
  {
    AddrStep(bs, i);
    AddrBetween(bs, i + 1, j);
  }

  lemma AddrInside(bs: Blocks, i: nat)
    requires Tiles(bs) && i < |bs|
    ensures HEAP_START <= Addr(bs, i) && Addr(bs, i) + HDR + bs[i].size <= HEAP_END
  {
    AddrApart(bs, i, |bs|);
  }

  lemma AddrInjective(bs: Blocks, i: nat, j: nat)
    requires i < |bs| && j < |bs| && Addr(bs, i) == Addr(bs, j)
    ensures i == j
  {
    if i < j {
      AddrApart(bs, i, j);
    } else if j < i {
      AddrApart(bs, j, i);
    }
  }

  lemma AddrAppend(pre: Blocks, post: Blocks, j: nat)
    requires j <= |post|
    ensures Addr(pre + post, |pre| + j) == HEAP_START + Span(pre) + Span(post[..j])
  {
    assert (pre + post)[..|pre| + j] == pre + post[..j];
    SpanConcat(pre, post[..j]);
  }

  /** Replacing a first stretch of blocks by another of the same extent moves nothing after it. */
  lemma AddrSplice(pre: Blocks, pre': Blocks, post: Blocks, j: nat)
    requires Span(pre) == Span(pre')
    requires j <= |post|
    ensures Addr(pre + post, |pre| + j) == Addr(pre' + post, |pre'| + j)
  {
    AddrAppend(pre, post, j);
    AddrAppend(pre', post, j);
  }

  // ---------- Well-formedness ----------

  lemma TakenSpan(b: Block, n: nat)
    requires Fits(b, n)
    ensures Span(Taken(b, n)) == HDR + b.size == Span([b])
  {
    var t := Taken(b, n);
    assert Span([b]) == Span([b][..0]) + HDR + b.size;
    if |t| == 2 {
      SpanConcat([t[0]], [t[1]]);
      assert t == [t[0]] + [t[1]];
      assert Span([t[0]]) == Span([t[0]][..0]) + HDR + n;
      assert Span([t[1]]) == Span([t[1]][..0]) + HDR + t[1].size;
    } else {
      assert Span(t) == Span(t[..0]) + HDR + b.size;
    }
  }

  lemma CarveAddr(bs: Blocks, i: nat, n: nat)
    requires i < |bs| && Fits(bs[i], n)
    ensures forall j :: 0 <= j <= i ==> Addr(Carve(bs, i, n), j) == Addr(bs, j)
    ensures forall j :: i < j <= |bs| ==>
      Addr(Carve(bs, i, n), j + |Carve(bs, i, n)| - |bs|) == Addr(bs, j)
  {
    hide Taken, Span;
    var cs := Carve(bs, i, n);
    var t := Taken(bs[i], n);
    TakenSpan(bs[i], n);
    forall j | 0 <= j <= i ensures Addr(cs, j) == Addr(bs, j) {
      assert cs[..j] == bs[..j];
    }
    var pre, pre', post := bs[..i] + [bs[i]], bs[..i] + t, bs[i + 1..];
    assert bs == pre + post && cs == pre' + post;
    SpanConcat(bs[..i], [bs[i]]);
    SpanConcat(bs[..i], t);
    forall j | i < j <= |bs| ensures Addr(cs, j + |cs| - |bs|) == Addr(bs, j) {
      AddrSplice(pre, pre', post, j - i - 1);
    }
  }

  lemma CarveCoalesced(bs: Blocks, i: nat, n: nat)
    requires Coalesced(bs) && i < |bs| && Fits(bs[i], n)
    ensures Coalesced(Carve(bs, i, n))
  {
    var cs := Carve(bs, i, n);
    var d := |cs| - |bs|;
    forall j | 0 <= j < |cs| - 1 ensures cs[j].used || cs[j + 1].used {
      if j + 1 < i {
        assert cs[j] == bs[j] && cs[j + 1] == bs[j + 1];
      } else if j > i + d {
        assert cs[j] == bs[j - d] && cs[j + 1] == bs[j - d + 1];
      } else if j == i + d && d == 1 {
        assert cs[j + 1] == bs[i + 1];
      }
    }
  }

  lemma CarveWellFormed(bs: Blocks, i: nat, n: nat)
    requires WellFormed(bs) && i < |bs| && Fits(bs[i], n)
    ensures WellFormed(Carve(bs, i, n))
  {
    hide Addr;
    CarveAddr(bs, i, n);
    CarveCoalesced(bs, i, n);
    assert Addr(Carve(bs, i, n), |bs| + |Carve(bs, i, n)| - |bs|) == Addr(bs, |bs|);
  }

  lemma MergeAddr(bs: Blocks, i: nat)
    requires i + 1 < |bs|
    ensures forall j :: 0 <= j <= i ==> Addr(Merge(bs, i), j) == Addr(bs, j)
    ensures forall j :: i + 1 < j <= |bs| ==> Addr(Merge(bs, i), j - 1) == Addr(bs, j)
  {
    var cs := Merge(bs, i);
    var two := [bs[i], bs[i + 1]];
    forall j | 0 <= j <= i ensures Addr(cs, j) == Addr(bs, j) {
      assert cs[..j] == bs[..j];
    }
    assert two == [bs[i]] + [bs[i + 1]];
    SpanConcat([bs[i]], [bs[i + 1]]);
    assert Span([bs[i]]) == Span([bs[i]][..0]) + HDR + bs[i].size;
    assert Span([bs[i + 1]]) == Span([bs[i + 1]][..0]) + HDR + bs[i + 1].size;
    var one := [cs[i]];
    assert Span(one) == Span(one[..0]) + HDR + cs[i].size;
    var pre, pre', post := bs[..i] + two, bs[..i] + one, bs[i + 2..];
    assert bs == pre + post && cs == pre' + post;
    SpanConcat(bs[..i], two);
    SpanConcat(bs[..i], one);
    forall j | i + 1 < j <= |bs| ensures Addr(cs, j - 1) == Addr(bs, j) {
      AddrSplice(pre, pre', post, j - i - 2);
    }
  }

  lemma {:induction false} ReleaseAddr(bs: Blocks, i: nat, j: nat)
    requires i < |bs| && j <= |bs|
    ensures Addr(Release(bs, i), j) == Addr(bs, j)
  {
    if j > 0 {
      ReleaseAddr(bs, i, j - 1);
      AddrStep(bs, j - 1);
      AddrStep(Release(bs, i), j - 1);
    }
  }

  lemma MergeTiles(bs: Blocks, i: nat)
    requires Tiles(bs) && i + 1 < |bs|
    ensures Tiles(Merge(bs, i))
  {
    MergeAddr(bs, i);
    assert Addr(Merge(bs, i), |bs| - 1) == Addr(bs, |bs|);
  }

  lemma FreeTiles(bs: Blocks, i: nat)
    requires Tiles(bs) && i < |bs|
    ensures Tiles(Free(bs, i))
  {
    var r := Release(bs, i);
    ReleaseAddr(bs, i, |bs|);
    assert Tiles(r);
    if i + 1 < |r| && !r[i + 1].used {
      MergeTiles(r, i);
    }
    var m := MergeNext(r, i);
    if i > 0 && !m[i - 1].used {
      MergeTiles(m, i - 1);
    }
  }

  /** No two neighbours of bs are both free, except possibly at i. */
  ghost predicate CoalescedBut(bs: Blocks, i: int) {
    forall j :: 0 <= j < |bs| - 1 && j != i ==> bs[j].used || bs[j + 1].used
  }

  lemma MergeCoalesced(bs: Blocks, i: nat, hole: int)
    requires i + 1 < |bs| && !bs[i].used && !bs[i + 1].used
    requires i + 2 < |bs| ==> bs[i + 2].used
    requires hole == i - 1 || (hole < 0 && (i > 0 ==> bs[i - 1].used))
    requires forall j :: 0 <= j < |bs| - 1 && j != i && j != hole ==> bs[j].used || bs[j + 1].used
    ensures CoalescedBut(Merge(bs, i), hole)
  {
    var cs := Merge(bs, i);
    forall j | 0 <= j < |cs| - 1 && j != hole ensures cs[j].used || cs[j + 1].used {
      if j > i {
        assert cs[j] == bs[j + 1] && cs[j + 1] == bs[j + 2];
      } else if j + 1 < i {
        assert cs[j] == bs[j] && cs[j + 1] == bs[j + 1];
      } else if j == i {
        assert cs[j + 1] == bs[j + 2];
      } else {
        assert cs[j] == bs[j];
      }
    }
  }

  lemma FreeCoalesced(bs: Blocks, i: nat)
    requires Coalesced(bs) && i < |bs| && bs[i].used
    ensures Coalesced(Free(bs, i))
  {
    hide Merge;
    var r := Release(bs, i);
    var m := MergeNext(r, i);
    if i + 1 < |bs| && !bs[i + 1].used {
      assert i + 2 < |bs| ==> bs[i + 2].used;
      MergeCoalesced(r, i, i - 1);
    }
    MergeKeeps(r, i);
    assert CoalescedBut(m, i - 1) && !m[i].used;
    if i > 0 && !m[i - 1].used {
      MergeCoalesced(m, i - 1, -1);
    }
  }

  lemma MergeKeeps(bs: Blocks, i: nat)
    requires i < |bs|
    ensures var m := MergeNext(bs, i);
      i < |m| && (forall j :: 0 <= j < i ==> m[j] == bs[j]) && (!bs[i].used ==> !m[i].used)
      && (i + 1 < |m| && m != bs ==> i + 2 < |bs| && m[i + 1] == bs[i + 2])
  {
  }

  /** Freeing a used block of a well-formed list gives a well-formed list: one merge on either
      side is enough to keep free blocks apart. */
  lemma FreeWellFormed(bs: Blocks, i: nat)
    requires WellFormed(bs) && i < |bs| && bs[i].used
    ensures WellFormed(Free(bs, i))
  {
    FreeTiles(bs, i);
    FreeCoalesced(bs, i);
  }

  // ---------- First fit ----------

  /** The size kmalloc really looks for: n rounded up to a multiple of 4, in 32 bits. The sum
      wraps to 0 for the three largest arguments. */
  function RoundUp(n: nat): (r: nat)
    requires n < 0x1_0000_0000
    ensures r % 4 == 0
    ensures n <= 0xFFFF_FFFC <==> n <= r
    ensures n <= 0xFFFF_FFFC ==> r < n + 4
    ensures n > 0xFFFF_FFFC ==> r == 0
  {
    if n % 4 != 0 then (n + (4 - n % 4)) % 0x1_0000_0000 else n
  }

  /** kmalloc fails exactly when no free block is large enough, and then changes nothing. */
  lemma MallocFailsIff(bs: Blocks, n: nat)
    ensures Malloc(bs, n) == bs <==> forall j :: 0 <= j < |bs| ==> !Fits(bs[j], n)
  {
    var i := FirstFit(bs, n);
    if i < |bs| {
      assert Malloc(bs, n)[i].used && !bs[i].used;
    }
  }

  /** First fit is minimal: the block taken is the lowest free one that is large enough. It keeps
      its address, its payload is between n and n + 16 bytes, and no other block changes. */
  lemma MallocFirstFit(bs: Blocks, n: nat, i: nat)
    requires WellFormed(bs)
    requires i < |bs| && Fits(bs[i], n) && forall j :: 0 <= j < i ==> !Fits(bs[j], n)
    ensures var cs := Malloc(bs, n);
      && i < |cs| && cs[i].used && n <= cs[i].size <= n + 16
      && Addr(cs, i) == Addr(bs, i)
      && (forall j :: 0 <= j < i ==> cs[j] == bs[j])
      && (forall j :: i < j < |bs| ==> cs[j + |cs| - |bs|] == bs[j])
      && (|cs| == |bs| || (|cs| == |bs| + 1 && cs[i].size == n && !cs[i + 1].used && cs[i + 1].size >= 4))
  {
    hide Addr, Carve, Tiles, Coalesced;
    assert FirstFit(bs, n) == i;
    CarveAddr(bs, i, n);
    CarveShape(bs, i, n);
  }

  lemma CarveShape(bs: Blocks, i: nat, n: nat)
    requires i < |bs| && Fits(bs[i], n)
    ensures var cs := Carve(bs, i, n);
      && i < |cs| && cs[i].used && n <= cs[i].size <= n + 16
      && (forall j :: 0 <= j < i ==> cs[j] == bs[j])
      && (forall j :: i < j < |bs| ==> cs[j + |cs| - |bs|] == bs[j])
      && (|cs| == |bs| || (|cs| == |bs| + 1 && cs[i].size == n && !cs[i + 1].used && cs[i + 1].size >= 4))
  {
  }

  // ---------- kfree undoes kmalloc ----------

  /** Freeing what was just allocated restores the list, whether or not the block was split. */
  lemma FreeMalloc(bs: Blocks, n: nat)
    requires WellFormed(bs) && FirstFit(bs, n) < |bs|
    ensures Free(Malloc(bs, n), FirstFit(bs, n)) == bs
  {
    hide Span, Addr, FirstFit, Free, Carve;
    FreeTaken(bs, FirstFit(bs, n), n);
  }

  lemma FreeTaken(bs: Blocks, i: nat, n: nat)
    requires Coalesced(bs) && i < |bs| && Fits(bs[i], n)
    ensures i < |Carve(bs, i, n)| && Free(Carve(bs, i, n), i) == bs
  {
    var cs := Carve(bs, i, n);
    var r := Release(cs, i);
    assert i > 0 ==> cs[i - 1] == bs[i - 1] && bs[i - 1].used;
    if |Taken(bs[i], n)| == 2 {
      assert cs == bs[..i] + [Block(n, true), Block(bs[i].size - n - HDR, false)] + bs[i + 1..];
      assert Merge(r, i) == bs[..i] + [bs[i]] + bs[i + 1..];
      assert MergeNext(r, i) == bs;
    } else {
      assert cs == bs[..i] + [Block(bs[i].size, true)] + bs[i + 1..];
      assert r == bs;
      assert i + 1 < |bs| ==> bs[i + 1].used;
    }
  }

  // ---------- Whole-heap facts ----------

  function CountUsed(bs: Blocks): nat {
    if bs == [] then 0 else CountUsed(bs[..|bs| - 1]) + if bs[|bs| - 1].used then 1 else 0
  }

  /** Fragmentation is bounded: at most one more free block than used blocks. */
  lemma {:induction false} FreeAtMostUsedPlusOne(bs: Blocks)
    requires Coalesced(bs)
    ensures |bs| - CountUsed(bs) <= CountUsed(bs) + 1
    ensures bs != [] && bs[|bs| - 1].used ==> |bs| - CountUsed(bs) <= CountUsed(bs)
  {
    if bs != [] {
      var front := bs[..|bs| - 1];
      FreeAtMostUsedPlusOne(front);
      if !bs[|bs| - 1].used && front != [] {
        assert front[|front| - 1] == bs[|bs| - 2];
      }
    }
  }

  lemma {:induction false} NoneUsed(bs: Blocks)
    requires forall i :: 0 <= i < |bs| ==> !bs[i].used
    ensures CountUsed(bs) == 0
  {
    if bs != [] {
      NoneUsed(bs[..|bs| - 1]);
    }
  }

  /** A well-formed heap in which nothing is used is the initial heap. */
  lemma NothingUsedIsInitial(bs: Blocks)
    requires WellFormed(bs)
    requires forall i :: 0 <= i < |bs| ==> !bs[i].used
    ensures bs == INITIAL
  {
    FreeAtMostUsedPlusOne(bs);
    NoneUsed(bs);
    AddrStep(bs, 0);
  }

  lemma InitialWellFormed()
    ensures WellFormed(INITIAL)
  {
    AddrStep(INITIAL, 0);
  }
}
