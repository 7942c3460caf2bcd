/** The driver of fat16.c, reading sectors one at a time, and to_fat_name of shell.c. */
module Fat16 {
  import opened Bytes
  import opened FatSpec
  import opened FatNames

  class Volume {
    const disk: Disk
    /** The 36 bytes of boot_sector. */
    const boot: array<byte>
    var fatStart: uint32
    var rootStart: uint32
    var dataStart: uint32

    constructor (disk: Disk)
      ensures this.disk == disk && boot.Length == 36 && fresh(boot)
    {
      this.disk := disk;
      boot := new byte[36](_ => 0);
      fatStart, rootStart, dataStart := 0, 0, 0;
    }

    ghost function Geo(): Geometry
      reads this, boot
    {
      Geometry(fatStart, rootStart, dataStart, U16(boot[..], 17), Byte(boot[..], 13))
    }

    /** fat16_init has succeeded: the positions are those of the boot sector. */
    ghost predicate Mounted()
      reads this, boot
    {
      boot.Length == 36 && Geo() == BootGeometry(boot[..])
    }

    method Init() returns (r: int)
      requires boot.Length == 36
      modifies this, boot
      ensures r == if disk(0).Data? then 0 else -1
      ensures r == 0 ==> Mounted() && boot[..] == disk(0).bytes[..36]
      ensures r != 0 ==> unchanged(this) && unchanged(boot)
    {
      var sector := disk(0);
      if sector.Unreadable? {
        return -1;
      }
      for i := 0 to 36
        invariant boot[..i] == sector.bytes[..i]
      {
        boot[i] := sector.bytes[i];
      }
      fatStart := Load16(boot, 14);
      var perFat := Load16(boot, 22);
      GeometryBounds(boot[16], perFat);
      rootStart := fatStart + boot[16] * perFat;
      var entries := Load16(boot, 17);
      dataStart := rootStart + RootSectors(entries);
      return 0;
    }

    /** fat16_list_root, as the list of names, sizes and clusters it prints. */
    method ListRoot() returns (out: seq<Listing>)
      requires Mounted()
      ensures out == ListFrom(disk, rootStart, RootSectors(Geo().rootEntries), 0)
    {
      hide Show, ListFrom, BootGeometry, U16, RootSectors, EntryAt, Readable;
      var entries := Load16(boot, 17);
      var n := RootSectors(entries);
      out := [];
      ghost var all := ListFrom(disk, rootStart, n, 0);
      for s := 0 to n
        invariant all == out + ListFrom(disk, rootStart, n, PER_SECTOR * s)
      {
        ListStep(disk, rootStart, n, PER_SECTOR * s);
        EntryIn(disk, rootStart, s, 0);
        var sector := disk(Wrap32(rootStart + s));
        if sector.Unreadable? {
          return;
        }
        var more, done := ListSector(sector.bytes, n, s);
        out := out + more;
        if done {
          return;
        }
      }
      ListStep(disk, rootStart, n, PER_SECTOR * n);
    }

    /** Lines 73 to 110 of fat16.c: the entries of one sector; done at the end marker. */
    method ListSector(sector: SectorBytes, ghost n: nat, ghost s: nat) returns (out: seq<Listing>, done: bool)
      requires s < n && disk(Wrap32(rootStart + s)) == Data(sector)
      ensures ListFrom(disk, rootStart, n, PER_SECTOR * s) ==
        out + if done then [] else ListFrom(disk, rootStart, n, PER_SECTOR * (s + 1))
    {
      hide Show, ListFrom, EntryAt, Readable;
      out, done := [], false;
      for i := 0 to PER_SECTOR
        invariant ListFrom(disk, rootStart, n, PER_SECTOR * s) == out + ListFrom(disk, rootStart, n, PER_SECTOR * s + i)
      {
        ListStep(disk, rootStart, n, PER_SECTOR * s + i);
        EntryIn(disk, rootStart, s, i);
        var e := sector[i * ENTRY..i * ENTRY + ENTRY];
        if e[0] == 0 {
          return out, true;
        }
        if Shown(e) {
          out := out + [Show(e)];
        }
      }
    }

    /** fat16_read_file. The buffer receives what the consecutive sectors hold, up to the file's size,
        the caller's limit or the first sector that cannot be read; -1 if there is no such file. */
    method ReadFile(name: seq<byte>, buffer: array<byte>, maxSize: uint32) returns (r: int)
      requires Mounted() && |name| >= 11
      requires maxSize <= buffer.Length && maxSize < 0x8000_0000
      modifies buffer
      ensures var k := Lookup(disk, old(Geo()), name[..11]);
        if k == -1 then r == -1 && buffer[..] == old(buffer[..])
        else
          var data := FileData(disk, old(Geo()), k, maxSize);
          r == |data| && buffer[..r] == data && buffer[r..] == old(buffer[r..])
    {
      hide Contiguous, Lookup, BootGeometry;
      var found, e := FindEntry(name);
      if !found {
        return -1;
      }
      var size := if FileSize(e) > maxSize then maxSize else FileSize(e);
      var first := Wrap32(dataStart + (Cluster(e) - 2) * boot[13]);
      r := CopySectors(first, buffer, size);
    }

    /** The two scan loops of fat16_read_file. */
    method FindEntry(name: seq<byte>) returns (found: bool, e: seq<byte>)
      requires Mounted() && |name| >= 11
      ensures var k := Lookup(disk, Geo(), name[..11]);
        (found <==> k != -1) && (found ==> e == EntryAt(disk, rootStart, k))
    {
      hide LookupFrom, BootGeometry, U16, RootSectors, EntryAt, Readable;
      var entries := Load16(boot, 17);
      var n := RootSectors(entries);
      ghost var k := Lookup(disk, Geo(), name[..11]);
      for s := 0 to n
        invariant k == LookupFrom(disk, rootStart, n, PER_SECTOR * s, name[..11])
      {
        LookupStep(disk, rootStart, n, PER_SECTOR * s, name[..11]);
        EntryIn(disk, rootStart, s, 0);
        var sector := disk(Wrap32(rootStart + s));
        if sector.Unreadable? {
          return false, [];
        }
        var i := FindInSector(sector.bytes, name, n, s);
        if i == -1 {
          return false, [];
        }
        if i < PER_SECTOR {
          EntryIn(disk, rootStart, s, i);
          return true, sector.bytes[i * ENTRY..i * ENTRY + ENTRY];
        }
      }
      LookupStep(disk, rootStart, n, PER_SECTOR * n, name[..11]);
      return false, [];
    }

    /** Lines 131 to 153 of fat16.c: the position of the file in one sector, 16 if it is not there,
        -1 at the end marker. */
    method FindInSector(sector: SectorBytes, name: seq<byte>, ghost n: nat, ghost s: nat) returns (r: int)
      requires s < n && |name| >= 11 && disk(Wrap32(rootStart + s)) == Data(sector)
      ensures -1 <= r <= PER_SECTOR
      ensures LookupFrom(disk, rootStart, n, PER_SECTOR * s, name[..11]) ==
        if r == PER_SECTOR then LookupFrom(disk, rootStart, n, PER_SECTOR * (s + 1), name[..11])
        else if r == -1 then -1
        else PER_SECTOR * s + r
    {
      hide LookupFrom, EntryAt, Readable, NameOf;
      for i := 0 to PER_SECTOR
        invariant LookupFrom(disk, rootStart, n, PER_SECTOR * s, name[..11])
          == LookupFrom(disk, rootStart, n, PER_SECTOR * s + i, name[..11])
      {
        LookupStep(disk, rootStart, n, PER_SECTOR * s + i, name[..11]);
        EntryIn(disk, rootStart, s, i);
        var e := sector[i * ENTRY..i * ENTRY + ENTRY];
        if e[0] == 0 {
          return -1;
        }
        if e[0] != 0xE5 {
          var same := SameName(e, name);
          if same {
            return i;
          }
        }
      }
      return PER_SECTOR;
    }

    /** Lines 149 to 152 of fat16.c. */
    method SameName(e: seq<byte>, name: seq<byte>) returns (same: bool)
      requires |e| == ENTRY && |name| >= 11
      ensures same <==> NameOf(e) == name[..11]
    {
      same := true;
      var c := 0;
      while c < 11 && same
        invariant 0 <= c <= 11
        invariant same ==> e[..c] == name[..c]
        invariant !same ==> NameOf(e) != name[..11]
      {
        if e[c] != name[c] {
          same := false;
          assert NameOf(e)[c] != name[..11][c];
        }
        c := c + 1;
      }
    }

    /** Lines 169 and 170 of fat16.c. */
    method CopyBlock(block: SectorBytes, buffer: array<byte>, at: nat, count: nat)
      requires count <= SECTOR && at + count <= buffer.Length
      modifies buffer
      ensures buffer[..] == old(buffer[..])[..at] + block[..count] + old(buffer[..])[at + count..]
    {
      for b := 0 to count
        invariant forall i :: 0 <= i < buffer.Length ==>
          buffer[i] == if at <= i < at + b then block[i - at] else old(buffer[i])
      {
        buffer[at + b] := block[b];
      }
    }

    /** Lines 163 to 174 of fat16.c: the contiguous copy. */
    method CopySectors(first: uint32, buffer: array<byte>, size: uint32) returns (bytesRead: int)
      requires size <= buffer.Length && size < 0x8000_0000
      modifies buffer
      ensures var data := Contiguous(disk, first, size);
        bytesRead == |data| && buffer[..bytesRead] == data && buffer[bytesRead..] == old(buffer[bytesRead..])
    {
      hide Contiguous;
      ghost var was := buffer[..];
      var sector := first;
      bytesRead := 0;
      ghost var data := Contiguous(disk, first, size);
      while bytesRead < size
        invariant 0 <= bytesRead <= size
        invariant data == buffer[..bytesRead] + Contiguous(disk, sector, size - bytesRead)
        invariant buffer[bytesRead..] == was[bytesRead..]
      {
        var block := disk(sector);
        if block.Unreadable? {
          break;
        }
        var toCopy: nat := SECTOR;
        if bytesRead + toCopy > size {
          toCopy := size - bytesRead;
        }
        ghost var before := buffer[..];
        CopyBlock(block.bytes, buffer, bytesRead, toCopy);
        CopiedBlock(was, before, buffer[..], block.bytes, bytesRead, toCopy);
        ContiguousNext(disk, sector, size - bytesRead, toCopy);
        bytesRead := bytesRead + toCopy;
        sector := Wrap32(sector as int + 1);
      }
      ContiguousStep(disk, sector, size - bytesRead);
    }
  }

  /** The buffer after a block has been copied behind the bytes read so far. */
  lemma CopiedBlock(was: seq<byte>, before: seq<byte>, after: seq<byte>, block: seq<byte>, read: nat, count: nat)
    requires count <= |block| && read + count <= |before| == |was|
    requires before[read..] == was[read..]
    requires after == before[..read] + block[..count] + before[read + count..]
    ensures after[..read + count] == before[..read] + block[..count]
    ensures after[read + count..] == was[read + count..]
  {
    assert before[read + count..] == before[read..][count..] == was[read..][count..];
  }

  /** What is left to read after one block. */
  lemma ContiguousNext(disk: Disk, sector: uint32, size: nat, count: nat)
    requires size > 0 && count == Min(size, SECTOR) && disk(sector).Data?
    ensures Contiguous(disk, sector, size) ==
      disk(sector).bytes[..count] + Contiguous(disk, Wrap32(sector + 1), size - count)
  {
    hide Contiguous;
    ContiguousStep(disk, sector, size);
    ContiguousNothing(disk, Wrap32(sector + 1));
    assert size > SECTOR ==> disk(sector).bytes[..count] == disk(sector).bytes;
  }

  /** Entry i of sector s is directory entry 16 s + i. */
  lemma EntryIn(disk: Disk, root: uint32, s: nat, i: nat)
    requires i < PER_SECTOR
    ensures Readable(disk, root, PER_SECTOR * s + i) <==> disk(Wrap32(root + s)).Data?
    ensures disk(Wrap32(root + s)).Data? ==>
      EntryAt(disk, root, PER_SECTOR * s + i) == disk(Wrap32(root + s)).bytes[i * ENTRY..i * ENTRY + ENTRY]
  {
    assert (PER_SECTOR * s + i) / PER_SECTOR == s && (PER_SECTOR * s + i) % PER_SECTOR == i;
  }

  lemma ListStep(disk: Disk, root: uint32, n: nat, k: nat)
    requires k <= PER_SECTOR * n
    ensures ListFrom(disk, root, n, k) ==
      if k == PER_SECTOR * n || !Readable(disk, root, k) || EntryAt(disk, root, k)[0] == 0 then []
      else (if Shown(EntryAt(disk, root, k)) then [Show(EntryAt(disk, root, k))] else []) + ListFrom(disk, root, n, k + 1)
  {
  }

  lemma LookupStep(disk: Disk, root: uint32, n: nat, k: nat, name: seq<byte>)
    requires k <= PER_SECTOR * n && |name| == 11
    ensures LookupFrom(disk, root, n, k, name) ==
      if k == PER_SECTOR * n || !Readable(disk, root, k) || EntryAt(disk, root, k)[0] == 0 then -1
      else if Live(EntryAt(disk, root, k)) && NameOf(EntryAt(disk, root, k)) == name then k
      else LookupFrom(disk, root, n, k + 1, name)
  {
  }

  /** to_fat_name: fills out with spaces, then with the two parts of the name in upper case. */
  method ToFatName(input: seq<byte>, out: array<byte>)
    requires 0 in input && out.Length >= 12
    modifies out
    ensures out[..11] == ToFat(CString(input)) && out[11] == 0
    ensures out[12..] == old(out[12..])
  {
    hide DotAt, ToFat, CString;
    ghost var s := CString(input);
    ghost var d := DotAt(s);
    for i := 0 to 11
      invariant forall j :: 0 <= j < i ==> out[j] == SPACE
      invariant out[12..] == old(out[12..])
    {
      out[i] := SPACE;
    }
    out[11] := 0;

    var i := 0;
    while input[i] != 0 && input[i] != DOT && i < 8
      invariant 0 <= i <= Min(d, 8)
      invariant forall j :: 0 <= j < 11 ==> out[j] == if j < i then Upper(s[j]) else SPACE
      invariant out[11] == 0 && out[12..] == old(out[12..])
      decreases 8 - i
    {
      out[i] := if 97 <= input[i] <= 122 then input[i] - 32 else input[i];
      i := i + 1;
    }
    assert i == Min(d, 8);
    while input[i] != 0 && input[i] != DOT
      invariant 0 <= i <= d
      decreases |input| - i
    {
      i := i + 1;
    }
    assert i == d;
    if input[i] == DOT {
      ExtensionTo(input, i + 1, out);
    }
    ghost var r := out[..11];
    NamePart(s, d, r);
    ExtPart(s, d, r);
    ToFatParts(s, d, r);
  }

  /** Lines 51 to 58 of shell.c, with i just behind the dot. */
  method ExtensionTo(input: seq<byte>, start: nat, out: array<byte>)
    requires 0 in input && start <= |CString(input)| && out.Length >= 12
    requires forall l :: 8 <= l < 11 ==> out[l] == SPACE
    modifies out
    ensures forall l {:trigger out[l]} :: 0 <= l < 8 || l == 11 ==> out[l] == old(out[l])
    ensures out[12..] == old(out[12..])
    ensures forall l {:trigger out[l]} :: 8 <= l < 11 ==>
      out[l] == if start + (l - 8) < |CString(input)| then Upper(CString(input)[start + (l - 8)]) else SPACE
  {
    hide CString;
    ghost var s := CString(input);
    var i, j := start, 8;
    while input[i] != 0 && j < 11
      invariant 8 <= j <= 11 && i == start + (j - 8) && i <= |s|
      invariant forall l :: 0 <= l < 8 || l == 11 ==> out[l] == old(out[l])
      invariant forall l :: 8 <= l < 11 ==> out[l] == if l < j then Upper(s[start + (l - 8)]) else SPACE
      invariant out[12..] == old(out[12..])
      decreases 11 - j
    {
      out[j] := if 97 <= input[i] <= 122 then input[i] - 32 else input[i];
      i := i + 1;
      j := j + 1;
    }
  }

  lemma PaddedAt(s: seq<byte>, n: nat, r: seq<byte>)
    requires |s| <= n == |r|
    requires forall i {:trigger r[i]} :: 0 <= i < n ==> r[i] == if i < |s| then Upper(s[i]) else SPACE
    ensures r == Padded(s, n)
  {
  }

  lemma NamePart(s: seq<byte>, d: nat, r: seq<byte>)
    requires d <= |s| && |r| == 11
    requires forall l {:trigger r[l]} :: 0 <= l < 8 ==> r[l] == if l < Min(d, 8) then Upper(s[l]) else SPACE
    ensures r[..8] == Padded(s[..Min(d, 8)], 8)
  {
    hide Upper, Padded;
    PaddedAt(s[..Min(d, 8)], 8, r[..8]);
  }

  lemma ExtPart(s: seq<byte>, d: nat, r: seq<byte>)
    requires d <= |s| && |r| == 11
    requires forall l {:trigger r[l]} :: 8 <= l < 11 ==>
      r[l] == if d + 1 + (l - 8) < |s| then Upper(s[d + 1 + (l - 8)]) else SPACE
    ensures r[8..] == if d < |s| then Padded(s[d + 1..Min(d + 4, |s|)], 3) else Spaces(3)
  {
    hide Upper, Padded;
    var ext := r[8..];
    forall l | 0 <= l < 3 ensures ext[l] == if d + 1 + l < |s| then Upper(s[d + 1 + l]) else SPACE {
      assert ext[l] == r[8 + l];
    }
    if d < |s| {
      PaddedAt(s[d + 1..Min(d + 4, |s|)], 3, ext);
    }
  }

  lemma ToFatParts(s: seq<byte>, d: nat, r: seq<byte>)
    requires d == DotAt(s) && |r| == 11
    requires r[..8] == Padded(s[..Min(d, 8)], 8)
    requires r[8..] == if d < |s| then Padded(s[d + 1..Min(d + 4, |s|)], 3) else Spaces(3)
    ensures r == ToFat(s)
  {
    hide DotAt, Padded;
    assert r == r[..8] + r[8..];
  }
}
