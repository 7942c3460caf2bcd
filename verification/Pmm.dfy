/** The physical frame allocator of pmm.c: one bit per frame, and a counter that must agree. */
module Pmm {
  import opened Bytes

  const FRAME_SIZE := 262144
  const FRAMES_MAX := 8192
  const BITMAP_SIZE := 256
  const START_FRAME := 8

  // ---------- Bits ----------

  type Bit = k: int | 0 <= k < 32
  const FULL: bv32 := 0xFFFF_FFFF

  function Mask(k: Bit): bv32 {
    (1 as bv32) << k
  }

  predicate Test(w: bv32, k: Bit) {
    w & Mask(k) != 0
  }

  /** w |= 1 << k */
  function Set(w: bv32, k: Bit): bv32 {
    w | Mask(k)
  }

  /** w &= ~(1 << k) */
  function Clear(w: bv32, k: Bit): bv32 {
    w & !Mask(k)
  }

  lemma MasksApart(i: Bit, j: Bit)
    requires i != j
    ensures Mask(i) & Mask(j) == 0
  {
    hide Mask;
    if i < j {
      MaskAbove(i, j);
    } else {
      MaskAbove(j, i);
    }
  }

  lemma MaskAbove(i: Bit, j: Bit)
    requires i < j
    ensures Mask(i) & Mask(j) == 0
  {
  }

  lemma MaskNonzero(i: Bit)
    ensures Mask(i) != 0
  {
  }

  lemma OrOther(w: bv32, m: bv32, n: bv32)
    requires m & n == 0
    ensures (w | m) & n == w & n && (w & !m) & n == w & n
  {
  }

  lemma OrSame(w: bv32, m: bv32)
    ensures (w | m) & m == m && (w & !m) & m == 0
  {
  }

  lemma SameBit(w: bv32, i: Bit)
    ensures Test(Set(w, i), i) && !Test(Clear(w, i), i)
  {
    hide Mask;
    OrSame(w, Mask(i));
    MaskNonzero(i);
  }

  lemma SetOtherBit(w: bv32, i: Bit, j: Bit)
    requires i != j
    ensures Test(Set(w, i), j) == Test(w, j)
  {
    MasksApart(i, j);
    OrOther(w, Mask(i), Mask(j));
  }

  lemma ClearOtherBit(w: bv32, i: Bit, j: Bit)
    requires i != j
    ensures Test(Clear(w, i), j) == Test(w, j)
  {
    MasksApart(i, j);
    OrOther(w, Mask(i), Mask(j));
  }

  lemma SetBit(w: bv32, i: Bit, j: Bit)
    ensures Test(Set(w, i), j) <==> i == j || Test(w, j)
  {
    hide Mask, Test, Set, Clear;
    if i == j { SameBit(w, i); } else { SetOtherBit(w, i, j); }
  }

  lemma ClearBit(w: bv32, i: Bit, j: Bit)
    ensures Test(Clear(w, i), j) <==> i != j && Test(w, j)
  {
    hide Mask, Test, Set, Clear;
    if i == j { SameBit(w, i); } else { ClearOtherBit(w, i, j); }
  }

  lemma FullBit(j: Bit)
    ensures Test(FULL, j)
  {
  }

  lemma ClearOr(w: bv32, m: bv32)
    requires w & m == 0
    ensures (w | m) & !m == w
  {
  }

  lemma ClearSetBit(w: bv32, i: Bit)
    requires !Test(w, i)
    ensures Clear(Set(w, i), i) == w
  {
    hide Mask;
    ClearOr(w, Mask(i));
  }

  // ---------- The bitmap as a set ----------

  /** Frame f is marked used. */
  predicate Used(b: seq<bv32>, f: nat)
    requires f < 32 * |b|
  {
    Test(b[f / 32], f % 32)
  }

  function FreeSet(b: seq<bv32>): set<nat> {
    set f: nat | f < 32 * |b| && !Used(b, f)
  }

  function SetFrame(b: seq<bv32>, f: nat): seq<bv32>
    requires f < 32 * |b|
  {
    b[f / 32 := Set(b[f / 32], f % 32)]
  }

  function ClearFrame(b: seq<bv32>, f: nat): seq<bv32>
    requires f < 32 * |b|
  {
    b[f / 32 := Clear(b[f / 32], f % 32)]
  }

  lemma SameFrame(f: nat, g: nat)
    requires f / 32 == g / 32 && f % 32 == g % 32
    ensures f == g
  {
  }

  lemma SetFrameFree(b: seq<bv32>, f: nat)
    requires f < 32 * |b|
    ensures FreeSet(SetFrame(b, f)) == FreeSet(b) - {f}
  {
    hide Test, Set, Clear;
    forall g: nat | g < 32 * |b| ensures Used(SetFrame(b, f), g) <==> g == f || Used(b, g) {
      if g / 32 == f / 32 {
        SetBit(b[f / 32], f % 32, g % 32);
        if g % 32 == f % 32 { SameFrame(f, g); }
      }
    }
  }

  lemma ClearFrameFree(b: seq<bv32>, f: nat)
    requires f < 32 * |b|
    ensures FreeSet(ClearFrame(b, f)) == FreeSet(b) + {f}
  {
    hide Test, Set, Clear;
    forall g: nat | g < 32 * |b| ensures Used(ClearFrame(b, f), g) <==> g != f && Used(b, g) {
      if g / 32 == f / 32 {
        ClearBit(b[f / 32], f % 32, g % 32);
        if g % 32 == f % 32 { SameFrame(f, g); }
      }
    }
  }

  predicate Within(lo: nat, hi: nat, f: nat) {
    lo <= f < hi
  }

  function Range(lo: nat, hi: nat): set<nat> {
    set f: nat | f < hi && Within(lo, hi, f)
  }

  lemma {:induction false} RangeSize(lo: nat, hi: nat)
    requires lo <= hi
    ensures |Range(lo, hi)| == hi - lo
    decreases hi
  {
    if lo == hi {
      assert Range(lo, hi) == {};
    } else {
      RangeSize(lo, hi - 1);
      assert Range(lo, hi) == Range(lo, hi - 1) + {hi - 1};
    }
  }

  // ---------- The allocator as a state machine ----------

  datatype Frames = Frames(bits: seq<bv32>, total: uint32, used: uint32)

  /** Frames the allocator manages: from 2 MB to the end of memory, at most 8192 in all. */
  function Limit(total: uint32): nat {
    if total > FRAMES_MAX then FRAMES_MAX else total
  }

  function Free(s: Frames): set<nat> {
    FreeSet(s.bits)
  }

  /** Bitmap and counter agree, and only managed frames are ever free. */
  ghost predicate Agree(s: Frames) {
    && |s.bits| == BITMAP_SIZE
    && s.used + |Free(s)| == s.total
    && Free(s) <= Range(START_FRAME, Limit(s.total))
  }

  /** The lowest free frame from f on, or 8192. */
  function Lowest(b: seq<bv32>, f: nat): (r: nat)
    requires f <= 32 * |b|
    ensures f <= r <= 32 * |b|
    ensures r < 32 * |b| ==> r in FreeSet(b)
    ensures forall g :: f <= g < r ==> g !in FreeSet(b)
    decreases 32 * |b| - f
  {
    if f == 32 * |b| || !Used(b, f) then f else Lowest(b, f + 1)
  }

  /** pmm_alloc_frame: the new state and the address, 0 if nothing is free. */
  function Alloc(s: Frames): (Frames, uint32)
    requires |s.bits| == BITMAP_SIZE
  {
    var f := Lowest(s.bits, 0);
    if s.used >= s.total || f == FRAMES_MAX then (s, 0)
    else (Frames(SetFrame(s.bits, f), s.total, Wrap32(s.used + 1)), f * FRAME_SIZE)
  }

  /** pmm_free_frame; a == frame * FRAME_SIZE of a frame below 8192. */
  function Release(s: Frames, a: uint32): Frames
    requires |s.bits| == BITMAP_SIZE && a / FRAME_SIZE < FRAMES_MAX
  {
    Frames(ClearFrame(s.bits, a / FRAME_SIZE), s.total, if s.used > 0 then s.used - 1 else s.used)
  }

  /** a is the address of a frame that has been handed out and not freed. */
  ghost predicate LiveFrame(s: Frames, a: int) {
    exists f: nat :: f in Range(START_FRAME, Limit(s.total)) && f !in Free(s) && a == f * FRAME_SIZE
  }

  lemma LowestIsMin(b: seq<bv32>)
    ensures Lowest(b, 0) == 32 * |b| <==> FreeSet(b) == {}
    ensures forall g :: g in FreeSet(b) ==> Lowest(b, 0) <= g
  {
    var f := Lowest(b, 0);
    forall g | g in FreeSet(b) ensures f <= g < 32 * |b| {
      assert !(0 <= g < f);
    }
  }

  /** pmm_alloc_frame returns 0 exactly when nothing is free, so its early exit on the counter is
      sound; otherwise the address of the lowest free frame, which was not live and now is. The
      product frame * 262144 fits a signed 32-bit integer. */
  lemma AllocCorrect(s: Frames)
    requires Agree(s)
    ensures var (s', a) := Alloc(s);
      && Agree(s')
      && (a == 0 <==> Free(s) == {})
      && (s.used >= s.total <==> Free(s) == {})
      && (a == 0 ==> s' == s)
      && (a != 0 ==>
            var f := a / FRAME_SIZE;
            && a == f * FRAME_SIZE && a < 0x8000_0000
            && f in Free(s) && (forall g :: g in Free(s) ==> f <= g)
            && Free(s') == Free(s) - {f} && s'.used == s.used + 1 && s'.total == s.total)
  {
    hide FreeSet, SetFrame, Set;
    LowestIsMin(s.bits);
    var f := Lowest(s.bits, 0);
    if Free(s) != {} {
      assert f in Free(s);
      SetFrameFree(s.bits, f);
      assert f in Range(START_FRAME, Limit(s.total));
      assert f * FRAME_SIZE / FRAME_SIZE == f;
      SetFrameSize(s.bits, f);
    }
  }

  lemma SetFrameSize(b: seq<bv32>, f: nat)
    requires f < 32 * |b|
    ensures |SetFrame(b, f)| == |b| == |ClearFrame(b, f)|
  {
  }

  lemma ReleaseCorrect(s: Frames, a: uint32)
    requires Agree(s) && LiveFrame(s, a)
    ensures a / FRAME_SIZE < FRAMES_MAX && a == a / FRAME_SIZE * FRAME_SIZE
    ensures var s', f := Release(s, a), a / FRAME_SIZE;
      && Agree(s') && s'.used == s.used - 1 && s'.total == s.total
      && f in Range(START_FRAME, Limit(s.total)) && f !in Free(s)
      && Free(s') == Free(s) + {f}
  {
    hide FreeSet, ClearFrame, Clear;
    var f: nat :| f in Range(START_FRAME, Limit(s.total)) && f !in Free(s) && a == f * FRAME_SIZE;
    assert a / FRAME_SIZE == f;
    ClearFrameFree(s.bits, f);
    SetFrameSize(s.bits, f);
    FreeIsPart(s, f);
  }

  /** With a managed frame in use the counter is positive. */
  lemma FreeIsPart(s: Frames, f: nat)
    requires Agree(s) && f in Range(START_FRAME, Limit(s.total)) && f !in Free(s)
    ensures s.used > 0
  {
    hide FreeSet;
    var r := Range(START_FRAME, Limit(s.total));
    RangeSize(START_FRAME, Limit(s.total));
    SubsetSize(Free(s), r - {f});
  }

  lemma {:induction false} SubsetSize(a: set<nat>, b: set<nat>)
    requires a <= b
    ensures |a| <= |b|
    decreases |a|
  {
    if x :| x in a {
      SubsetSize(a - {x}, b - {x});
    }
  }

  /** Freeing what was just allocated restores bitmap and counter bit for bit. */
  lemma ReleaseAlloc(s: Frames)
    requires Agree(s) && Alloc(s).1 != 0
    ensures Alloc(s).1 / FRAME_SIZE < FRAMES_MAX
    ensures |Alloc(s).0.bits| == BITMAP_SIZE && Release(Alloc(s).0, Alloc(s).1) == s
  {
    hide Test, Set, Clear;
    AllocCorrect(s);
    var f := Lowest(s.bits, 0);
    assert f * FRAME_SIZE / FRAME_SIZE == f;
    ClearSetBit(s.bits[f / 32], f % 32);
    var w := SetFrame(s.bits, f);
    assert ClearFrame(w, f) == s.bits;
  }

  // ---------- Runs ----------

  /** Allocate, or free an address. */
  datatype Op = Take | Give(a: uint32)

  ghost predicate Valid(s: Frames, op: Op) {
    |s.bits| == BITMAP_SIZE && (op.Give? ==> LiveFrame(s, op.a) && op.a / FRAME_SIZE < FRAMES_MAX)
  }

  ghost function Step(s: Frames, op: Op): Frames
    requires Valid(s, op)
  {
    match op
    case Take => Alloc(s).0
    case Give(a) => Release(s, a)
  }

  ghost predicate ValidRun(s: Frames, ops: seq<Op>)
    decreases |ops|
  {
    ops == [] || (Valid(s, ops[0]) && ValidRun(Step(s, ops[0]), ops[1..]))
  }

  ghost function Run(s: Frames, ops: seq<Op>): Frames
    requires ValidRun(s, ops)
    decreases |ops|
  {
    if ops == [] then s else Run(Step(s, ops[0]), ops[1..])
  }

  /** The addresses handed out and not freed, when out are those outstanding at the start. */
  ghost function Outstanding(s: Frames, ops: seq<Op>, out: set<int>): set<int>
    requires ValidRun(s, ops)
    decreases |ops|
  {
    if ops == [] then out
    else Outstanding(Step(s, ops[0]), ops[1..], Next(s, ops[0], out))
  }

  ghost function Next(s: Frames, op: Op, out: set<int>): set<int>
    requires Valid(s, op)
  {
    match op
    case Take => if Alloc(s).1 == 0 then out else out + {Alloc(s).1 as int}
    case Give(a) => out - {a as int}
  }

  lemma StepAgree(s: Frames, op: Op)
    requires Agree(s) && Valid(s, op)
    ensures Agree(Step(s, op))
    ensures forall a :: LiveFrame(Step(s, op), a) <==>
      match op
      case Take => LiveFrame(s, a) || (a == Alloc(s).1 && a != 0)
      case Give(x) => LiveFrame(s, a) && a != x
  {
    hide FreeSet, Alloc, Release;
    match op
    case Take => AllocCorrect(s);
    case Give(a) => ReleaseCorrect(s, a);
  }

  /** Bitmap and counter agree after every valid run, and the live frames are exactly those handed out
      and not yet freed. */
  lemma {:induction false} RunAgrees(s: Frames, ops: seq<Op>, out: set<int>)
    requires Agree(s) && ValidRun(s, ops)
    requires forall a :: a in out <==> LiveFrame(s, a)
    ensures Agree(Run(s, ops))
    ensures forall a :: a in Outstanding(s, ops, out) <==> LiveFrame(Run(s, ops), a)
    decreases |ops|
  {
    hide LiveFrame, Agree, Alloc, Release;
    if ops != [] {
      StepAgree(s, ops[0]);
      ZeroNotLive(s);
      RunAgrees(Step(s, ops[0]), ops[1..], Next(s, ops[0], out));
    }
  }

  lemma ZeroNotLive(s: Frames)
    ensures !LiveFrame(s, 0)
  {
  }

  // ---------- In addresses ----------

  lemma ManagedFrames(total: uint32)
    ensures forall f: nat :: f in Range(START_FRAME, Limit(total)) <==> f < total && 8 <= f < 8192
  {
  }

  lemma {:induction false} RunTotal(s: Frames, ops: seq<Op>)
    requires Agree(s) && ValidRun(s, ops)
    ensures Run(s, ops).total == s.total
    decreases |ops|
  {
    hide LiveFrame, Agree;
    if ops != [] {
      StepAgree(s, ops[0]);
      RunTotal(Step(s, ops[0]), ops[1..]);
    }
  }

  /** After pmm_init for a memory of that size and any valid run, every frame handed out lies between 2 MB,
      above the kernel, and the end of memory. */
  lemma FramesAboveKernel(s: Frames, size: uint32, ops: seq<Op>, out: set<int>)
    requires Agree(s) && s.total == size / 262144 && ValidRun(s, ops)
    requires forall a :: a in out <==> LiveFrame(s, a)
    ensures |Run(s, ops).bits| == 256
    ensures var a := Alloc(Run(s, ops)).1;
      a != 0 ==> 0x20_0000 <= a && a + 262144 <= size && a % 262144 == 0
  {
    hide LiveFrame, Alloc, FreeSet;
    RunAgrees(s, ops, out);
    RunTotal(s, ops);
    AllocCorrect(Run(s, ops));
  }

  /** The first frame handed out after pmm_init is the one at 2 MB, if memory reaches beyond it. */
  lemma FirstFrame(s: Frames, size: uint32)
    requires Agree(s) && s.total == size / 262144 && size >= 0x24_0000
    requires forall f: nat :: f in Free(s) <==> f < s.total && 8 <= f < 8192
    ensures Alloc(s).1 == 0x20_0000
  {
    hide Alloc, FreeSet;
    AllocCorrect(s);
    assert 8 in Free(s);
  }

  // ---------- The code ----------

  class Allocator {
    const bitmap: array<bv32>
    var totalFrames: uint32
    var usedFrames: uint32
    var memSize: uint32

    constructor ()
      ensures bitmap.Length == BITMAP_SIZE && fresh(bitmap)
    {
      bitmap := new bv32[BITMAP_SIZE](_ => 0);
      totalFrames, usedFrames, memSize := 0, 0, 0;
    }

    function State(): Frames
      reads this, bitmap
    {
      Frames(bitmap[..], totalFrames, usedFrames)
    }

    /** pmm_init: everything is marked used, then the frames from 2 MB up are freed. */
    method Init(size: uint32)
      requires bitmap.Length == BITMAP_SIZE
      modifies this, bitmap
      ensures Agree(State()) && totalFrames == size / 262144
      ensures forall f: nat :: f in Free(State()) <==> f < totalFrames && 8 <= f < 8192
      ensures forall a :: !LiveFrame(State(), a)
    {
      hide Test, FreeSet, ClearFrame, Clear, Set;
      memSize := size;
      totalFrames := size / FRAME_SIZE;
      for i := 0 to BITMAP_SIZE
        invariant forall j :: 0 <= j < i ==> bitmap[j] == FULL
        invariant totalFrames == size / FRAME_SIZE
      {
        bitmap[i] := FULL;
      }
      usedFrames := totalFrames;
      AllUsed(bitmap[..]);
      var end := totalFrames;
      if end > FRAMES_MAX {
        end := FRAMES_MAX;
      }
      var i := START_FRAME;
      while i < end
        invariant START_FRAME <= i && (i <= end || i == START_FRAME) && end == Limit(totalFrames)
        invariant totalFrames == size / FRAME_SIZE && usedFrames == totalFrames - (i - START_FRAME)
        invariant FreeSet(bitmap[..]) == Range(START_FRAME, i)
      {
        ghost var b := bitmap[..];
        ClearFrameFree(b, i);
        bitmap[i / 32] := Clear(bitmap[i / 32], i % 32);
        assert bitmap[..] == ClearFrame(b, i) by { ClearFrameIs(b, i); }
        usedFrames := usedFrames - 1;
        assert Range(START_FRAME, i + 1) == Range(START_FRAME, i) + {i};
        i := i + 1;
      }
      assert Range(START_FRAME, i) == Range(START_FRAME, end);
      ManagedFrames(totalFrames);
      RangeSize(START_FRAME, i);
    }

    /** pmm_find_free_frame: the lowest clear bit, or -1. */
    method FindFree() returns (r: int)
      requires bitmap.Length == BITMAP_SIZE
      ensures r == if Lowest(bitmap[..], 0) == FRAMES_MAX then -1 else Lowest(bitmap[..], 0)
    {
      hide Lowest, Test;
      ghost var b := bitmap[..];
      for i := 0 to BITMAP_SIZE
        invariant Lowest(b, 0) == Lowest(b, 32 * i)
      {
        if bitmap[i] != FULL {
          for bit := 0 to 32
            invariant Lowest(b, 0) == Lowest(b, 32 * i + bit)
          {
            LowestStep(b, i, bit);
            if !Test(bitmap[i], bit) {
              return i * 32 + bit;
            }
          }
        } else {
          LowestFull(b, i, 0);
        }
      }
      LowestEnd(b);
      return -1;
    }

    method AllocFrame() returns (a: uint32)
      requires Agree(State())
      modifies this, bitmap
      ensures (State(), a) == Alloc(old(State()))
    {
      hide Lowest, Agree, Set;
      AgreeLength(State());
      if usedFrames >= totalFrames {
        return 0;
      }
      var frame := FindFree();
      if frame == -1 {
        return 0;
      }
      bitmap[frame / 32] := Set(bitmap[frame / 32], frame % 32);
      usedFrames := Wrap32(usedFrames + 1);
      return frame * FRAME_SIZE;
    }

    /** Frees a frame that is currently allocated. */
    method FreeFrame(a: uint32)
      requires Agree(State()) && LiveFrame(State(), a)
      modifies this, bitmap
      ensures a / FRAME_SIZE < FRAMES_MAX && bitmap.Length == BITMAP_SIZE
      ensures State() == Release(old(State()), a)
    {
      hide FreeSet, LiveFrame, Clear, Set;
      ReleaseCorrect(State(), a);
      var frame := a / FRAME_SIZE;
      bitmap[frame / 32] := Clear(bitmap[frame / 32], frame % 32);
      if usedFrames > 0 {
        usedFrames := usedFrames - 1;
      }
    }

    method FreeFrames() returns (n: uint32)
      requires Agree(State())
      ensures n == |Free(State())|
    {
      n := totalFrames - usedFrames;
    }
  }

  lemma AgreeLength(s: Frames)
    requires Agree(s)
    ensures |s.bits| == BITMAP_SIZE
  {
  }

  lemma ClearFrameIs(b: seq<bv32>, f: nat)
    requires f < 32 * |b|
    ensures ClearFrame(b, f) == b[f / 32 := Clear(b[f / 32], f % 32)]
  {
  }

  lemma AllUsed(b: seq<bv32>)
    requires forall j :: 0 <= j < |b| ==> b[j] == FULL
    ensures FreeSet(b) == {}
  {
    hide Test;
    forall f: nat | f < 32 * |b| ensures Used(b, f) {
      FullBit(f % 32);
    }
  }

  lemma LowestStep(b: seq<bv32>, i: nat, bit: Bit)
    requires i < |b|
    ensures Lowest(b, 32 * i + bit) == if Test(b[i], bit) then Lowest(b, 32 * i + bit + 1) else 32 * i + bit
  {
    hide Test;
    assert (32 * i + bit) / 32 == i && (32 * i + bit) % 32 == bit;
  }

  lemma {:induction false} LowestFull(b: seq<bv32>, i: nat, bit: nat)
    requires i < |b| && b[i] == FULL && bit <= 32
    ensures Lowest(b, 32 * i + bit) == Lowest(b, 32 * (i + 1))
    decreases 32 - bit
  {
    hide Test, Lowest;
    if bit < 32 {
      LowestStep(b, i, bit);
      FullBit(bit);
      LowestFull(b, i, bit + 1);
    }
  }

  lemma LowestEnd(b: seq<bv32>)
    ensures Lowest(b, 32 * |b|) == 32 * |b|
  {
  }
}
