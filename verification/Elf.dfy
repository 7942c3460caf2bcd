/** The ELF loader of elf.c: header check and the loading of PT_LOAD segments into memory. */
module Elf {
  import opened Bytes
  import opened HeapList
  import opened HeapBytes
  import opened HeapModel
  import Pcbs
  import Processes
  import Context
  import Frames
  import FatSpec
  import Fat16

  const PT_LOAD := 1
  const PHDR_SIZE := 32
  /** sizeof(elf_buffer) */
  const BUFFER_SIZE := 65536
  /** Where user.ld links user programs. */
  const USER_BASE := 0x30_0000

  datatype Phdr = Phdr(ptype: uint32, offset: uint32, vaddr: uint32, filesz: uint32, memsz: uint32)

  /** elf_verify accepts: magic, 32-bit, little-endian, ET_EXEC, EM_386. */
  predicate ValidHeader(b: seq<byte>) {
    && Byte(b, 0) == 0x7F && Byte(b, 1) == 0x45 && Byte(b, 2) == 0x4C && Byte(b, 3) == 0x46
    && Byte(b, 4) == 1 && Byte(b, 5) == 1
    && U16(b, 16) == 2 && U16(b, 18) == 3
  }

  function PhdrAt(b: seq<byte>, o: int): Phdr {
    Phdr(Word(b, o), Word(b, o + 4), Word(b, o + 8), Word(b, o + 16), Word(b, o + 20))
  }

  /** The n program headers of the table at o. */
  function Phdrs(b: seq<byte>, o: int, n: nat): (phs: seq<Phdr>)
    ensures |phs| == n
    ensures forall i :: 0 <= i < n ==> phs[i] == PhdrAt(b, o + PHDR_SIZE * i)
  {
    seq(n, i requires 0 <= i < n => PhdrAt(b, o + PHDR_SIZE * i))
  }

  /** e_phoff and e_phnum locate the table. */
  function Table(b: seq<byte>): seq<Phdr> {
    Phdrs(b, Word(b, 28), U16(b, 44))
  }

  // ---------- What loading means ----------

  function Extent(p: Phdr): nat {
    if p.filesz < p.memsz then p.memsz else p.filesz
  }

  predicate Covers(p: Phdr, a: int) {
    p.ptype == PT_LOAD && p.vaddr <= a < p.vaddr + Extent(p)
  }

  /** What segment p says about address a: a byte of the file, or zero beyond p_filesz. */
  function Says(b: seq<byte>, p: Phdr, a: int): byte {
    if a < p.vaddr + p.filesz then Byte(b, p.offset + (a - p.vaddr)) else 0
  }

  /** The byte at a once the segments phs have been loaded over memory m. */
  function Image(m: Mem, b: seq<byte>, phs: seq<Phdr>, a: int): byte {
    if phs == [] then Byte(m, a)
    else
      var p := phs[|phs| - 1];
      if Covers(p, a) then Says(b, p, a) else Image(m, b, phs[..|phs| - 1], a)
  }

  lemma ImageStep(m: Mem, b: seq<byte>, phs: seq<Phdr>, a: int)
    requires phs != []
    ensures var p := phs[|phs| - 1];
      Image(m, b, phs, a) == if Covers(p, a) then Says(b, p, a) else Image(m, b, phs[..|phs| - 1], a)
  {
  }

  /** An address covered by no segment keeps its byte. */
  lemma {:induction false} UncoveredStays(m: Mem, b: seq<byte>, phs: seq<Phdr>, a: int)
    requires forall i :: 0 <= i < |phs| ==> !Covers(phs[i], a)
    ensures Image(m, b, phs, a) == Byte(m, a)
  {
    hide Covers;
    if phs != [] {
      UncoveredStays(m, b, phs[..|phs| - 1], a);
    }
  }

  /** Each address finally holds what the last segment covering it says. */
  lemma {:induction false} LastCoverDecides(m: Mem, b: seq<byte>, phs: seq<Phdr>, i: nat, a: int)
    requires i < |phs| && Covers(phs[i], a) && forall j :: i < j < |phs| ==> !Covers(phs[j], a)
    ensures Image(m, b, phs, a) == Says(b, phs[i], a)
    decreases |phs|
  {
    hide Covers, Says, Image;
    ImageStep(m, b, phs, a);
    if i < |phs| - 1 {
      LastCoverDecides(m, b, phs[..|phs| - 1], i, a);
    }
  }

  /** Some segment decides an address that any covers. */
  lemma {:induction false} LastCover(phs: seq<Phdr>, a: int, k: nat) returns (i: nat)
    requires k < |phs| && Covers(phs[k], a)
    ensures i < |phs| && Covers(phs[i], a) && forall j :: i < j < |phs| ==> !Covers(phs[j], a)
    decreases |phs|
  {
    if Covers(phs[|phs| - 1], a) {
      i := |phs| - 1;
    } else {
      i := LastCover(phs[..|phs| - 1], a, k);
    }
  }

  /** No two program headers load the same address. */
  ghost predicate Disjoint(phs: seq<Phdr>) {
    forall i, j, a :: 0 <= i < j < |phs| && Covers(phs[i], a) ==> !Covers(phs[j], a)
  }

  /** With disjoint segments, any segment of a rearrangement that covers a is the one that decides. */
  lemma OnlyCover(phs: seq<Phdr>, qs: seq<Phdr>, i: nat, j: nat, a: int)
    requires Disjoint(phs) && multiset(phs) == multiset(qs)
    requires i < |phs| && Covers(phs[i], a) && j < |qs| && Covers(qs[j], a)
    ensures qs[j] == phs[i]
  {
    hide Covers;
    SameElements(phs, qs);
    var e :| 0 <= e < |phs| && phs[e] == qs[j];
  }

  /** For disjoint segments the order of the program headers does not matter. */
  lemma OrderIrrelevant(m: Mem, b: seq<byte>, phs: seq<Phdr>, qs: seq<Phdr>, a: int)
    requires Disjoint(phs) && multiset(phs) == multiset(qs)
    ensures Image(m, b, phs, a) == Image(m, b, qs, a)
  {
    hide Covers, Image, Disjoint;
    SameElements(phs, qs);
    if k: nat :| k < |phs| && Covers(phs[k], a) {
      CoveredSame(m, b, phs, qs, a, k);
    } else {
      UncoveredStays(m, b, phs, a);
      forall j | 0 <= j < |qs| ensures !Covers(qs[j], a) {
        var e :| 0 <= e < |phs| && phs[e] == qs[j];
      }
      UncoveredStays(m, b, qs, a);
    }
  }

  lemma CoveredSame(m: Mem, b: seq<byte>, phs: seq<Phdr>, qs: seq<Phdr>, a: int, k: nat)
    requires Disjoint(phs) && multiset(phs) == multiset(qs) && k < |phs| && Covers(phs[k], a)
    ensures Image(m, b, phs, a) == Image(m, b, qs, a)
  {
    hide Covers, Says, Image, Disjoint;
    var l := Somewhere(phs, qs, k);
    var i := LastCover(phs, a, k);
    LastCoverDecides(m, b, phs, i, a);
    var j := LastCover(qs, a, l);
    LastCoverDecides(m, b, qs, j, a);
    OnlyCover(phs, qs, i, j, a);
  }

  lemma Somewhere(phs: seq<Phdr>, qs: seq<Phdr>, k: nat) returns (l: nat)
    requires multiset(phs) == multiset(qs) && k < |phs|
    ensures l < |qs| && qs[l] == phs[k]
  {
    SameElements(phs, qs);
    l :| 0 <= l < |qs| && qs[l] == phs[k];
  }

  lemma SameElements(phs: seq<Phdr>, qs: seq<Phdr>)
    requires multiset(phs) == multiset(qs)
    ensures forall k :: 0 <= k < |phs| ==> exists l :: 0 <= l < |qs| && qs[l] == phs[k]
    ensures forall k :: 0 <= k < |qs| ==> exists l :: 0 <= l < |phs| && phs[l] == qs[k]
  {
    forall k | 0 <= k < |phs| ensures exists l :: 0 <= l < |qs| && qs[l] == phs[k] {
      assert phs[k] in multiset(qs);
    }
    forall k | 0 <= k < |qs| ensures exists l :: 0 <= l < |phs| && phs[l] == qs[k] {
      assert qs[k] in multiset(phs);
    }
  }

  // ---------- Loading and the heap ----------

  /** Memory m' is m with the segments loaded. */
  ghost predicate Loaded(m: Mem, m': Mem, b: seq<byte>, phs: seq<Phdr>) {
    |m'| == |m| && forall a :: 0 <= a < |m| ==> Byte(m', a) == Image(m, b, phs, a)
  }

  // ---------- The image from the bytes of the file ----------

  /** The word at offset x of program header k. */
  function HeaderWord(b: seq<byte>, k: nat, x: nat): uint32 {
    Word(b, Word(b, 28) + 32 * k + x)
  }

  /** Program header k is PT_LOAD (p_type 1) and its segment of p_filesz and p_memsz bytes from p_vaddr
      has a place for address a. */
  predicate Reaches(b: seq<byte>, k: nat, a: int) {
    && HeaderWord(b, k, 0) == 1
    && HeaderWord(b, k, 8) <= a
    && (a < HeaderWord(b, k, 8) + HeaderWord(b, k, 16) || a < HeaderWord(b, k, 8) + HeaderWord(b, k, 20))
  }

  /** Address a after loading the file b, when i is the last of its program headers to reach it: below
      p_filesz the byte of the file at p_offset, from there to p_memsz zero. ("Program Header" in the TIS
      ELF specification: p_type at 0, p_offset at 4, p_vaddr at 8, p_filesz at 16, p_memsz at 20.) */
  lemma LoadedByte(m: Mem, m': Mem, b: seq<byte>, i: nat, a: nat)
    requires Loaded(m, m', b, Table(b)) && a < |m|
    requires i < U16(b, 44) && Reaches(b, i, a) && forall k :: i < k < U16(b, 44) ==> !Reaches(b, k, a)
    ensures a < HeaderWord(b, i, 8) + HeaderWord(b, i, 16) ==>
      Byte(m', a) == Byte(b, HeaderWord(b, i, 4) + (a - HeaderWord(b, i, 8)))
    ensures a >= HeaderWord(b, i, 8) + HeaderWord(b, i, 16) ==> Byte(m', a) == 0
  {
    hide Word, U16, Image;
    forall k | 0 <= k < U16(b, 44) ensures Covers(Table(b)[k], a) <==> Reaches(b, k, a) {
      CoversReaches(b, k, a);
    }
    LastCoverDecides(m, b, Table(b), i, a);
  }

  /** An address no program header reaches keeps its byte. */
  lemma UnloadedByte(m: Mem, m': Mem, b: seq<byte>, a: nat)
    requires Loaded(m, m', b, Table(b)) && a < |m|
    requires forall k :: 0 <= k < U16(b, 44) ==> !Reaches(b, k, a)
    ensures Byte(m', a) == Byte(m, a)
  {
    hide Word, U16, Image;
    forall k | 0 <= k < U16(b, 44) ensures !Covers(Table(b)[k], a) {
      CoversReaches(b, k, a);
    }
    UncoveredStays(m, b, Table(b), a);
  }

  lemma CoversReaches(b: seq<byte>, k: nat, a: int)
    requires k < U16(b, 44)
    ensures Covers(Table(b)[k], a) <==> Reaches(b, k, a)
  {
    hide Word, U16;
  }

  /** Programs linked at 0x300000 and above cannot disturb the heap: its headers still describe the
      same blocks and no live payload changes. */
  lemma LoadKeepsHeap(h: HeapState, m': Mem, b: seq<byte>, phs: seq<Phdr>)
    requires Good(h) && Loaded(h.mem, m', b, phs)
    requires forall i :: 0 <= i < |phs| && phs[i].ptype == PT_LOAD ==> phs[i].vaddr >= 0x30_0000
    ensures Good(HeapState(m', h.blocks))
    ensures forall q, t :: Owns(h.blocks, q, t) ==> SamePayload(h, HeapState(m', h.blocks), q, t)
  {
    hide Addr, Hdr, Owns, Image, Says;
    BelowUser(h.mem, m', b, phs);
    forall a | InHeader(h.blocks, a) ensures a < HEAP_END {
      var i :| 0 <= i < |h.blocks| && Addr(h.blocks, i) <= a < Addr(h.blocks, i) + HDR;
      AddrInside(h.blocks, i);
    }
    SameHeadersGood(h, m');
    forall q, t | Owns(h.blocks, q, t) ensures SamePayload(h, HeapState(m', h.blocks), q, t) {
      PayloadsDisjoint(h.blocks, q, t, q, t);
    }
  }

  lemma BelowUser(m: Mem, m': Mem, b: seq<byte>, phs: seq<Phdr>)
    requires Loaded(m, m', b, phs)
    requires forall i :: 0 <= i < |phs| && phs[i].ptype == PT_LOAD ==> phs[i].vaddr >= 0x30_0000
    ensures forall a :: a < USER_BASE ==> Byte(m', a) == Byte(m, a)
  {
    hide Image, Says;
    forall a | a < USER_BASE ensures Byte(m', a) == Byte(m, a) {
      UncoveredStays(m, b, phs, a);
    }
  }

  /** Loading such a program is something running code may do: besides the heap it leaves the process
      table, the kernel and every other process's stack alone, and so keeps every parked frame. */
  lemma LoadAllowed(mc: Context.Machine, cpu: Frames.Cpu, m': Mem, b: seq<byte>, phs: seq<Phdr>)
    requires Context.Inv(mc) && Loaded(mc.heap.mem, m', b, phs)
    requires forall i :: 0 <= i < |phs| && phs[i].ptype == PT_LOAD ==> phs[i].vaddr >= 0x30_0000
    ensures Context.Allowed(mc, Context.Execute(cpu, m'))
    ensures Context.Inv(Context.Step(mc, Context.Execute(cpu, m')))
  {
    hide Good, Owns, OwnsBetween, Pcbs.Stored, Image, InHeader, Context.Parked;
    BelowUser(mc.heap.mem, m', b, phs);
    var ring := mc.sys.ring;
    forall x | InHeader(mc.heap.blocks, x) ensures x < USER_BASE {
      Processes.HeaderInside(mc.heap, x);
    }
    forall i | 0 <= i < |ring|
      ensures ring[i].addr + Pcbs.PCB_SIZE <= USER_BASE && ring[i].stack + Processes.STACK_SIZE <= USER_BASE
    {
      Processes.BlockInside(mc.heap, ring[i].addr, Pcbs.PCB_SIZE);
      Processes.BlockInside(mc.heap, ring[i].stack, Processes.STACK_SIZE);
    }
    assert Context.Allowed(mc, Context.Execute(cpu, m'));
    Context.StepInv(mc, Context.Execute(cpu, m'));
  }

  // ---------- The loader ----------

  /** elf_verify: 0 for a little-endian 32-bit x86 executable, -1 otherwise. */
  method Verify(buffer: array<byte>) returns (r: int)
    requires buffer.Length == BUFFER_SIZE
    ensures r == if ValidHeader(buffer[..]) then 0 else -1
    ensures r == 0 <==>
      && buffer[0] == 0x7F && buffer[1] == 'E' as int && buffer[2] == 'L' as int && buffer[3] == 'F' as int
      && buffer[4] == 1 && buffer[5] == 1
      && Two(buffer[16], buffer[17]) == 2 && Two(buffer[18], buffer[19]) == 3
  {
    WordBytes(buffer[..], 16);
    WordBytes(buffer[..], 18);
    if buffer[0] != 0x7F || buffer[1] != 0x45 || buffer[2] != 0x4C || buffer[3] != 0x46 {
      return -1;
    }
    if buffer[4] != 1 {
      return -1;
    }
    if buffer[5] != 1 {
      return -1;
    }
    var etype := Load16(buffer, 16);
    if etype != 2 {
      return -1;
    }
    var machine := Load16(buffer, 18);
    if machine != 3 {
      return -1;
    }
    return 0;
  }

  /** The contract the loader leaves to the file: its table and segment sources lie in the buffer, and
      its segments in memory. */
  ghost predicate InBounds(b: seq<byte>, size: nat) {
    && Word(b, 28) + PHDR_SIZE * U16(b, 44) <= |b|
    && forall i :: 0 <= i < |Table(b)| && Table(b)[i].ptype == PT_LOAD ==>
         Table(b)[i].offset + Table(b)[i].filesz <= |b| && Table(b)[i].vaddr + Extent(Table(b)[i]) <= size
  }

  /** Lines 113 to 145 of elf.c: after it, memory is the image the program headers describe. */
  method LoadSegments(buffer: array<byte>, mem: array<byte>) returns (count: nat)
    requires buffer.Length == BUFFER_SIZE && buffer != mem
    requires InBounds(buffer[..], mem.Length)
    modifies mem
    ensures Loaded(old(mem[..]), mem[..], buffer[..], Table(buffer[..]))
    ensures count == |set i: nat | i < |Table(buffer[..])| && Table(buffer[..])[i].ptype == PT_LOAD|
  {
    hide Word, U16, Image;
    var phoff := Load32(buffer, 28);
    var phnum := Load16(buffer, 44);
    ghost var b, m, phs := buffer[..], mem[..], Table(buffer[..]);
    count := 0;
    ImageNothing(m, b);
    for i := 0 to phnum
      invariant buffer[..] == b
      invariant Loaded(m, mem[..], b, phs[..i])
      invariant count == |set k: nat | k < i && phs[k].ptype == PT_LOAD|
    {
      var p := LoadPhdr(buffer, phoff + PHDR_SIZE * i);
      assert p == phs[i];
      ghost var before := set k: nat | k < i && phs[k].ptype == PT_LOAD;
      ghost var after := set k: nat | k < i + 1 && phs[k].ptype == PT_LOAD;
      ImageNext(m, b, phs, i);
      if p.ptype != PT_LOAD {
        assert after == before;
        continue;
      }
      CopySegment(buffer, mem, p);
      assert after == before + {i};
      count := count + 1;
    }
    assert phs[..phnum] == phs;
  }

  lemma ImageNothing(m: Mem, b: seq<byte>)
    ensures forall a :: Image(m, b, [], a) == Byte(m, a)
  {
  }

  lemma ImageNext(m: Mem, b: seq<byte>, phs: seq<Phdr>, i: nat)
    requires i < |phs|
    ensures forall a ::
      Image(m, b, phs[..i + 1], a) == if Covers(phs[i], a) then Says(b, phs[i], a) else Image(m, b, phs[..i], a)
  {
    assert phs[..i + 1][..i] == phs[..i];
  }

  method LoadPhdr(buffer: array<byte>, o: nat) returns (p: Phdr)
    requires o + PHDR_SIZE <= buffer.Length
    ensures p == PhdrAt(buffer[..], o)
  {
    hide Word;
    var ptype := Load32(buffer, o);
    var offset := Load32(buffer, o + 4);
    var vaddr := Load32(buffer, o + 8);
    var filesz := Load32(buffer, o + 16);
    var memsz := Load32(buffer, o + 20);
    p := Phdr(ptype, offset, vaddr, filesz, memsz);
  }

  /** Lines 135 to 142 of elf.c. */
  method CopySegment(buffer: array<byte>, mem: array<byte>, p: Phdr)
    requires buffer != mem && p.ptype == PT_LOAD
    requires p.offset + p.filesz <= buffer.Length && p.vaddr + Extent(p) <= mem.Length
    modifies mem
    ensures forall a :: 0 <= a < mem.Length ==>
      mem[a] == if Covers(p, a) then Says(buffer[..], p, a) else old(mem[a])
  {
    for b := 0 to p.filesz
      invariant forall a :: 0 <= a < mem.Length ==>
        mem[a] == if p.vaddr <= a < p.vaddr + b then buffer[p.offset + (a - p.vaddr)] else old(mem[a])
    {
      mem[p.vaddr + b] := buffer[p.offset + b];
    }
    var b: int := p.filesz;
    while b < p.memsz
      invariant p.filesz <= b <= Extent(p)
      invariant forall a :: 0 <= a < mem.Length ==>
        mem[a] == if p.vaddr <= a < p.vaddr + b then Says(buffer[..], p, a) else old(mem[a])
    {
      mem[p.vaddr + b] := 0;
      b := b + 1;
    }
  }

  /** elf_buffer after reading the file over its old contents. */
  ghost function Refilled(prior: seq<byte>, data: seq<byte>): seq<byte>
    requires |data| <= |prior|
  {
    data + prior[|data|..]
  }

  /** elf_load up to its jump to the entry point: -1 if there is no such file or it is not an
      executable for this machine, memory untouched; otherwise memory is the image of the file. The
      file's own offsets and addresses are trusted, as elf.c trusts them. */
  method Load(volume: Fat16.Volume, name: seq<byte>, buffer: array<byte>, mem: array<byte>) returns (r: int)
    requires volume.Mounted() && |name| >= 11
    requires buffer.Length == BUFFER_SIZE && buffer != mem && volume.boot != buffer && volume.boot != mem
    requires var k := FatSpec.Lookup(volume.disk, volume.Geo(), name[..11]);
      k != -1 ==>
        var b := Refilled(buffer[..], FatSpec.FileData(volume.disk, volume.Geo(), k, 65536));
        ValidHeader(b) ==> InBounds(b, mem.Length)
    modifies buffer, mem
    ensures r == 0 || r == -1
    ensures var k := FatSpec.Lookup(volume.disk, old(volume.Geo()), name[..11]);
      if k == -1 then r == -1 && mem[..] == old(mem[..])
      else
        var b := Refilled(old(buffer[..]), FatSpec.FileData(volume.disk, old(volume.Geo()), k, 65536));
        && (r == 0 <==> ValidHeader(b))
        && (r == -1 ==> mem[..] == old(mem[..]))
        && (r == 0 ==> Loaded(old(mem[..]), mem[..], b, Table(b)))
  {
    hide FatSpec.Lookup, FatSpec.BootGeometry, FatSpec.FileData, ValidHeader, InBounds, Loaded, Table;
    var bytes := volume.ReadFile(name, buffer, BUFFER_SIZE);
    if bytes < 0 {
      return -1;
    }
    assert buffer[..] == buffer[..bytes] + buffer[bytes..];
    var ok := Verify(buffer);
    if ok < 0 {
      return -1;
    }
    var count := LoadSegments(buffer, mem);
    return 0;
  }
}
