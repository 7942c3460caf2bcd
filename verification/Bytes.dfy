/** Machine integers and byte-addressed memory.

    Memory is a sequence of bytes indexed by physical address. Reads outside it give 0 and writes
    outside it do nothing, so that every function here is total; the methods that touch a real
    array demand that the address is inside it. Multi-byte values are little-endian. */
module Bytes {

  type byte = x: int | 0 <= x < 0x100
  type uint16 = x: int | 0 <= x < 0x1_0000
  type uint32 = x: int | 0 <= x < 0x1_0000_0000
  type Mem = seq<byte>

  /** The value a 32-bit register holds after an arithmetic operation with result x. */
  function Wrap32(x: int): uint32 {
    x % 0x1_0000_0000
  }

  function Byte(m: Mem, a: int): byte {
    if 0 <= a < |m| then m[a] else 0
  }

  function Poke(m: Mem, a: int, v: byte): (r: Mem)
    ensures |r| == |m|
  {
    if 0 <= a < |m| then m[a := v] else m
  }

  ghost predicate SameOn(m: Mem, m': Mem, lo: int, hi: int) {
    forall a :: lo <= a < hi ==> Byte(m, a) == Byte(m', a)
  }

  /** m and m' have the same extent and agree on every byte outside [lo, hi). */
  ghost predicate SameOutside(m: Mem, m': Mem, lo: int, hi: int) {
    |m| == |m'| && forall a :: a < lo || hi <= a ==> Byte(m, a) == Byte(m', a)
  }

  function Pow256(n: nat): (r: int)
    ensures r > 0
  {
    if n == 0 then 1 else 256 * Pow256(n - 1)
  }

  /** The little-endian number in the n bytes at a. */
  function Le(m: Mem, a: int, n: nat): (r: nat)
    ensures r < Pow256(n)
    decreases n
  {
    if n == 0 then 0 else Byte(m, a) + 256 * Le(m, a + 1, n - 1)
  }

  /** m with the n low bytes of v stored at a. */
  function PutLe(m: Mem, a: int, n: nat, v: nat): (r: Mem)
    ensures |r| == |m|
    decreases n
  {
    if n == 0 then m else PutLe(Poke(m, a, v % 256), a + 1, n - 1, v / 256)
  }

  lemma {:induction false} LeSame(m: Mem, m': Mem, a: int, n: nat)
    requires SameOn(m, m', a, a + n)
    ensures Le(m, a, n) == Le(m', a, n)
    decreases n
  {
    if n > 0 {
      LeSame(m, m', a + 1, n - 1);
    }
  }

  lemma {:induction false} PutLeOutside(m: Mem, a: int, n: nat, v: nat)
    ensures SameOutside(m, PutLe(m, a, n, v), a, a + n)
    decreases n
  {
    if n > 0 {
      PutLeOutside(Poke(m, a, v % 256), a + 1, n - 1, v / 256);
    }
  }

  /** What is stored little-endian is read back. */
  lemma {:induction false} LePutLe(m: Mem, a: int, n: nat, v: nat)
    requires 0 <= a && a + n <= |m|
    requires v < Pow256(n)
    ensures Le(PutLe(m, a, n, v), a, n) == v
    decreases n
  {
    if n > 0 {
      var m1 := Poke(m, a, v % 256);
      LePutLe(m1, a + 1, n - 1, v / 256);
      PutLeOutside(m1, a + 1, n - 1, v / 256);
    }
  }

  lemma Pow256Four()
    ensures Pow256(2) == 0x1_0000 && Pow256(4) == 0x1_0000_0000
  {
    assert Pow256(1) == 256;
    assert Pow256(3) == 0x100_0000;
  }

  /** The 32-bit word at a. */
  function Word(m: Mem, a: int): uint32 {
    Pow256Four();
    Le(m, a, 4)
  }

  /** The 16-bit word at a. */
  function U16(m: Mem, a: int): uint16 {
    Pow256Four();
    Le(m, a, 2)
  }

  /** Little-endian numbers from their bytes. */
  function Two(b0: int, b1: int): int {
    b0 + 0x100 * b1
  }

  function Four(b0: int, b1: int, b2: int, b3: int): int {
    b0 + 0x100 * b1 + 0x1_0000 * b2 + 0x100_0000 * b3
  }

  /** The byte order, in numbers. */
  lemma WordBytes(m: Mem, a: int)
    ensures U16(m, a) == Two(Byte(m, a), Byte(m, a + 1))
    ensures Word(m, a) == Four(Byte(m, a), Byte(m, a + 1), Byte(m, a + 2), Byte(m, a + 3))
  {
    assert Le(m, a + 3, 1) == Byte(m, a + 3);
    assert Le(m, a + 2, 2) == Byte(m, a + 2) + 0x100 * Byte(m, a + 3);
    assert Le(m, a + 1, 3) == Byte(m, a + 1) + 0x100 * Le(m, a + 2, 2);
    assert Le(m, a + 1, 1) == Byte(m, a + 1);
  }

  function PutWord(m: Mem, a: int, v: uint32): (r: Mem)
    ensures |r| == |m|
  {
    PutLe(m, a, 4, v)
  }

  lemma WordSame(m: Mem, m': Mem, a: int)
    requires SameOn(m, m', a, a + 4)
    ensures Word(m, a) == Word(m', a)
  {
    LeSame(m, m', a, 4);
  }

  lemma PutWordSpec(m: Mem, a: int, v: uint32)
    ensures SameOutside(m, PutWord(m, a, v), a, a + 4)
    ensures 0 <= a && a + 4 <= |m| ==> Word(PutWord(m, a, v), a) == v
  {
    PutLeOutside(m, a, 4, v);
    Pow256Four();
    if 0 <= a && a + 4 <= |m| {
      LePutLe(m, a, 4, v);
    }
  }

  /** A C string: the characters before the first NUL. */
  function CString(s: seq<byte>): (r: seq<byte>)
    requires 0 in s
    ensures |r| < |s| && r == s[..|r|] && s[|r|] == 0 && 0 !in r
  {
    if s[0] == 0 then [] else [s[0]] + CString(s[1..])
  }

  /** The primitive accesses the C code makes: a 32-bit load and a 32-bit store. */
  method Load32(mem: array<byte>, a: int) returns (v: uint32)
    requires 0 <= a && a + 4 <= mem.Length
    ensures v == Word(mem[..], a)
  {
    var b0: int, b1: int, b2: int, b3: int := mem[a], mem[a + 1], mem[a + 2], mem[a + 3];
    assert Le(mem[..], a + 3, 1) == b3;
    assert Le(mem[..], a + 2, 2) == b2 + 256 * b3;
    assert Le(mem[..], a + 1, 3) == b1 + 256 * (b2 + 256 * b3);
    v := b0 + 256 * (b1 + 256 * (b2 + 256 * b3));
  }

  method Load16(mem: array<byte>, a: nat) returns (v: uint16)
    requires a + 2 <= mem.Length
    ensures v == U16(mem[..], a)
  {
    assert Le(mem[..], a + 1, 1) == mem[a + 1];
    var b0: int, b1: int := mem[a], mem[a + 1];
    v := b0 + 256 * b1;
  }

  method Store8(mem: array<byte>, a: int, v: byte)
    requires 0 <= a < mem.Length
    modifies mem
    ensures mem[..] == Poke(old(mem[..]), a, v)
  {
    mem[a] := v;
  }

  method Store32(mem: array<byte>, a: int, v: uint32)
    requires 0 <= a && a + 4 <= mem.Length
    modifies mem
    ensures mem[..] == PutWord(old(mem[..]), a, v)
  {
    var n: nat := v;
    mem[a], mem[a + 1], mem[a + 2], mem[a + 3] :=
      n % 256, n / 256 % 256, n / 256 / 256 % 256, n / 256 / 256 / 256 % 256;
    ghost var m := old(mem[..]);
    assert mem[..] == Poke(Poke(Poke(Poke(m, a, n % 256), a + 1, n / 256 % 256), a + 2, n / 256 / 256 % 256),
                           a + 3, n / 256 / 256 / 256 % 256);
  }
}
