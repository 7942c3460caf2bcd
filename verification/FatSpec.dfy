/** FAT16 as values: the disk, the geometry, the directory scan and file contents, both as the
    driver reads them and as the file allocation table defines them. */
module FatSpec {
  import opened Arith
  import opened Bytes

  const SECTOR := 512
  const ENTRY := 32
  const PER_SECTOR := 16

  type SectorBytes = s: seq<byte> | |s| == SECTOR witness seq(SECTOR, _ => 0)
  datatype Sector = Unreadable | Data(bytes: SectorBytes)
  /** ata_read_sector: what each logical block holds, or that it cannot be read. */
  type Disk = uint32 -> Sector

  datatype Geometry = Geometry(fatStart: uint32, rootStart: uint32, dataStart: uint32,
                               rootEntries: uint16, sectorsPerCluster: byte)

  // ---------- Geometry ----------

  /** fat16_init's positions, from the first 36 bytes of the boot sector. */
  function BootGeometry(b: seq<byte>): Geometry {
    var fatStart := U16(b, 14);
    var rootStart := fatStart + Byte(b, 16) * U16(b, 22);
    GeometryBounds(Byte(b, 16), U16(b, 22));
    Geometry(fatStart, rootStart, rootStart + RootSectors(U16(b, 17)), U16(b, 17), Byte(b, 13))
  }

  lemma GeometryBounds(fats: byte, perFat: uint16)
    ensures 0 <= fats * perFat <= 255 * 65535
  {
    assert fats * perFat <= 255 * perFat;
  }

  function RootSectors(rootEntries: uint16): (n: nat)
    ensures n <= 4096
  {
    (rootEntries * 32 + 511) / 512
  }

  // ---------- The directory ----------

  predicate Readable(disk: Disk, root: uint32, k: nat) {
    disk(Wrap32(root + k / PER_SECTOR)).Data?
  }

  /** Directory entry k of the root directory that starts at sector root. */
  function EntryAt(disk: Disk, root: uint32, k: nat): (e: seq<byte>)
    requires Readable(disk, root, k)
    ensures |e| == ENTRY
  {
    disk(Wrap32(root + k / PER_SECTOR)).bytes[k % PER_SECTOR * ENTRY..k % PER_SECTOR * ENTRY + ENTRY]
  }

  function Cluster(e: seq<byte>): uint16 {
    U16(e, 26)
  }

  function FileSize(e: seq<byte>): uint32 {
    Word(e, 28)
  }

  /** The first 11 bytes: name and extension. */
  function NameOf(e: seq<byte>): (n: seq<byte>)
    requires |e| == ENTRY
    ensures |n| == 11
  {
    e[..11]
  }

  predicate Live(e: seq<byte>)
    requires |e| == ENTRY
  {
    e[0] != 0 && e[0] != 0xE5
  }

  /** The scan gets as far as entry k: every sector so far can be read and the end marker has not
      been met. */
  ghost predicate Reached(disk: Disk, root: uint32, n: nat, k: nat) {
    && k < PER_SECTOR * n
    && forall j :: 0 <= j <= k ==> Readable(disk, root, j) && EntryAt(disk, root, j)[0] != 0
  }

  /** Index of the entry fat16_read_file selects, scanning from entry k; -1 if none. */
  function LookupFrom(disk: Disk, root: uint32, n: nat, k: nat, name: seq<byte>): (r: int)
    requires k <= PER_SECTOR * n && |name| == 11
    ensures r == -1 || (k <= r < PER_SECTOR * n && Readable(disk, root, r))
    decreases PER_SECTOR * n - k
  {
    if k == PER_SECTOR * n || !Readable(disk, root, k) then -1
    else
      var e := EntryAt(disk, root, k);
      if e[0] == 0 then -1
      else if Live(e) && NameOf(e) == name then k
      else LookupFrom(disk, root, n, k + 1, name)
  }

  /** The file selected is the first live entry with that name that the scan reaches. */
  ghost predicate Selects(disk: Disk, root: uint32, n: nat, name: seq<byte>, k: int)
    requires |name| == 11
  {
    && 0 <= k && Reached(disk, root, n, k)
    && Live(EntryAt(disk, root, k)) && NameOf(EntryAt(disk, root, k)) == name
    && forall j :: 0 <= j < k && Readable(disk, root, j) && Live(EntryAt(disk, root, j)) ==>
         NameOf(EntryAt(disk, root, j)) != name
  }

  ghost predicate Passed(disk: Disk, root: uint32, name: seq<byte>, j: nat)
    requires |name| == 11
  {
    && Readable(disk, root, j) && EntryAt(disk, root, j)[0] != 0
    && !(Live(EntryAt(disk, root, j)) && NameOf(EntryAt(disk, root, j)) == name)
  }

  ghost predicate AllPassed(disk: Disk, root: uint32, name: seq<byte>, k: nat)
    requires |name| == 11
  {
    forall j: nat :: j < k ==> Passed(disk, root, name, j)
  }

  lemma PassedNotSelected(disk: Disk, root: uint32, n: nat, name: seq<byte>, l: nat)
    requires |name| == 11 && Passed(disk, root, name, l)
    ensures !Selects(disk, root, n, name, l)
  {
    hide EntryAt, Readable, NameOf;
  }

  /** With the first k entries passed, only k itself or a later entry can be selected. */
  lemma SelectsFrom(disk: Disk, root: uint32, n: nat, k: nat, name: seq<byte>, l: int)
    requires |name| == 11 && AllPassed(disk, root, name, k) && Selects(disk, root, n, name, l)
    ensures l >= k && k < PER_SECTOR * n && Readable(disk, root, k) && EntryAt(disk, root, k)[0] != 0
  {
    hide EntryAt, Readable, NameOf;
    if l < k {
      PassedNotSelected(disk, root, n, name, l);
    }
  }

  lemma SelectsHere(disk: Disk, root: uint32, n: nat, k: nat, name: seq<byte>)
    requires |name| == 11 && AllPassed(disk, root, name, k) && k < PER_SECTOR * n && Readable(disk, root, k)
    requires Live(EntryAt(disk, root, k)) && NameOf(EntryAt(disk, root, k)) == name
    ensures Selects(disk, root, n, name, k)
  {
    hide EntryAt, Readable, NameOf;
    forall j | 0 <= j <= k ensures Readable(disk, root, j) && EntryAt(disk, root, j)[0] != 0 {
      assert j < k ==> Passed(disk, root, name, j);
    }
    forall j | 0 <= j < k && Readable(disk, root, j) && Live(EntryAt(disk, root, j))
      ensures NameOf(EntryAt(disk, root, j)) != name
    {
      assert Passed(disk, root, name, j);
    }
  }

  lemma {:induction false} LookupFromSpec(disk: Disk, root: uint32, n: nat, k: nat, name: seq<byte>)
    requires k <= PER_SECTOR * n && |name| == 11 && AllPassed(disk, root, name, k)
    ensures var r := LookupFrom(disk, root, n, k, name);
      && (r != -1 ==> Selects(disk, root, n, name, r))
      && (r == -1 ==> forall l :: !Selects(disk, root, n, name, l))
    decreases PER_SECTOR * n - k
  {
    hide EntryAt, Readable, NameOf, Selects;
    forall l | Selects(disk, root, n, name, l)
      ensures k < PER_SECTOR * n && Readable(disk, root, k) && EntryAt(disk, root, k)[0] != 0
    {
      SelectsFrom(disk, root, n, k, name, l);
    }
    if k < PER_SECTOR * n && Readable(disk, root, k) {
      var e := EntryAt(disk, root, k);
      if e[0] != 0 {
        if Live(e) && NameOf(e) == name {
          SelectsHere(disk, root, n, k, name);
        } else {
          LookupFromSpec(disk, root, n, k + 1, name);
        }
      }
    }
  }

  /** The scan finds the file exactly when the directory holds it, and finds the first one. */
  lemma LookupSpec(disk: Disk, root: uint32, n: nat, name: seq<byte>)
    requires |name| == 11
    ensures var r := LookupFrom(disk, root, n, 0, name);
      && (r != -1 ==> Selects(disk, root, n, name, r))
      && (r == -1 <==> forall l :: !Selects(disk, root, n, name, l))
  {
    hide Selects;
    LookupFromSpec(disk, root, n, 0, name);
  }

  // ---------- File contents ----------

  /** The driver's reading of size bytes from consecutive sectors; it stops at one it cannot read. */
  function Contiguous(disk: Disk, sector: uint32, size: nat): (r: seq<byte>)
    ensures |r| <= size
    decreases size
  {
    if size == 0 || disk(sector).Unreadable? then []
    else if size <= SECTOR then disk(sector).bytes[..size]
    else disk(sector).bytes + Contiguous(disk, Wrap32(sector + 1), size - SECTOR)
  }

  function Min(a: int, b: int): int {
    if a < b then a else b
  }

  /** Directory index of the file that fat16_read_file opens; -1 if there is none. */
  function Lookup(disk: Disk, g: Geometry, name: seq<byte>): (k: int)
    requires |name| == 11
    ensures k == -1 || (0 <= k && Readable(disk, g.rootStart, k))
  {
    LookupFrom(disk, g.rootStart, RootSectors(g.rootEntries), 0, name)
  }

  /** What fat16_read_file delivers of the file at directory index k. */
  function FileData(disk: Disk, g: Geometry, k: nat, maxSize: nat): (data: seq<byte>)
    requires Readable(disk, g.rootStart, k)
    ensures |data| <= maxSize
  {
    var e := EntryAt(disk, g.rootStart, k);
    Contiguous(disk, ClusterSector(g, Cluster(e)), Min(FileSize(e), maxSize))
  }

  /** First sector of a cluster, computed in 32 bits as the driver does. */
  function ClusterSector(g: Geometry, c: int): uint32 {
    Wrap32(g.dataStart + (c - 2) * g.sectorsPerCluster)
  }

  // ---------- The file allocation table ----------

  /** The file allocation table's entry for cluster c; an unreadable table reads as end of chain. */
  function FatEntry(disk: Disk, g: Geometry, c: nat): uint16 {
    match disk(Wrap32(g.fatStart + 2 * c / SECTOR))
    case Unreadable => 0xFFFF
    case Data(b) => U16(b, 2 * c % SECTOR)
  }

  /** An entry that names another cluster: not free (0), reserved, bad (0xFFF7) or end of chain
      (0xFFF8 and up). */
  predicate IsLink(v: int) {
    2 <= v < 0xFFF7
  }

  /** Cluster k of the chain from c, or -1 if the chain is shorter. */
  function Follow(disk: Disk, g: Geometry, c: nat, k: nat): (f: int)
    ensures f >= -1
  {
    if k == 0 then c
    else
      var p := Follow(disk, g, c, k - 1);
      if p == -1 || !IsLink(FatEntry(disk, g, p)) then -1 else FatEntry(disk, g, p)
  }

  /** The sector of piece q of the file whose chain starts at c, if the chain gets that far: by the
      specification cluster n starts at sector FirstDataSector + (n - 2) * BPB_SecPerClus. */
  function ChainSector(disk: Disk, g: Geometry, c: nat, q: nat): int
    requires g.sectorsPerCluster >= 1
  {
    g.dataStart + (Follow(disk, g, c, q / g.sectorsPerCluster) - 2) * g.sectorsPerCluster + q % g.sectorsPerCluster
  }

  /** The chain has a piece q, at a sector a disk can have. */
  predicate HasPiece(disk: Disk, g: Geometry, c: nat, q: nat)
    requires g.sectorsPerCluster >= 1
  {
    Follow(disk, g, c, q / g.sectorsPerCluster) >= 0 && 0 <= ChainSector(disk, g, c, q) < 0x1_0000_0000
  }

  /** The bytes from piece q on of the file of that size whose chain starts at c, up to the end of the
      chain or the first unreadable sector. */
  function ChainRead(disk: Disk, g: Geometry, c: nat, size: nat, q: nat): (r: seq<byte>)
    requires g.sectorsPerCluster >= 1
    decreases size - SECTOR * q
  {
    if SECTOR * q >= size || !HasPiece(disk, g, c, q) then []
    else
      match disk(ChainSector(disk, g, c, q))
      case Unreadable => []
      case Data(b) =>
        if size - SECTOR * q <= SECTOR then b[..size - SECTOR * q]
        else b + ChainRead(disk, g, c, size, q + 1)
  }

  /** The chain from c is c, c + 1, ... as far as size bytes reach. */
  ghost predicate Consecutive(disk: Disk, g: Geometry, c: nat, size: nat) {
    forall k: nat {:trigger Linked(disk, g, c, k)} ::
      (k + 1) * (SECTOR * g.sectorsPerCluster) < size ==> Linked(disk, g, c, k)
  }

  ghost predicate Linked(disk: Disk, g: Geometry, c: nat, k: nat) {
    FatEntry(disk, g, c + k) == c + k + 1 && IsLink(c + k + 1)
  }

  lemma ContiguousStep(disk: Disk, sector: uint32, size: nat)
    ensures Contiguous(disk, sector, size) ==
      if size == 0 || disk(sector).Unreadable? then []
      else if size <= SECTOR then disk(sector).bytes[..size]
      else disk(sector).bytes + Contiguous(disk, Wrap32(sector + 1), size - SECTOR)
  {
  }

  lemma ContiguousNothing(disk: Disk, sector: uint32)
    ensures Contiguous(disk, sector, 0) == []
  {
  }

  // ---------- Exactly when the two agree ----------

  /** The sector the driver reads for piece q. */
  function DriverSector(g: Geometry, c: nat, q: nat): int {
    g.dataStart + (c - 2) * g.sectorsPerCluster + q
  }

  function Pieces(size: nat): nat {
    (size + SECTOR - 1) / SECTOR
  }

  /** The driver reads piece q from where the file allocation table says it is. */
  predicate ReadsRight(disk: Disk, g: Geometry, c: nat, q: nat)
    requires g.sectorsPerCluster >= 1
  {
    Follow(disk, g, c, q / g.sectorsPerCluster) >= 0 && DriverSector(g, c, q) == ChainSector(disk, g, c, q)
  }

  lemma {:induction false} FollowConsecutive(disk: Disk, g: Geometry, c: nat, k: nat)
    requires forall i: nat :: i < k ==> Linked(disk, g, c, i)
    ensures Follow(disk, g, c, k) == c + k
  {
    if k > 0 {
      FollowConsecutive(disk, g, c, k - 1);
      assert Linked(disk, g, c, k - 1);
    }
  }

  lemma FollowNext(disk: Disk, g: Geometry, c: nat, k: nat)
    requires Follow(disk, g, c, k) == c + k
    ensures Follow(disk, g, c, k + 1) == c + k + 1 <==> Linked(disk, g, c, k)
  {
    hide FatEntry;
  }

  lemma MulCancel(a: int, b: int, s: int)
    requires s >= 1 && a * s == b * s
    ensures a == b
  {
  }

  /** Piece q is read from the right sector exactly when its cluster is where it would be in a
      consecutive chain. */
  lemma SectorAgrees(disk: Disk, g: Geometry, c: nat, q: nat)
    requires g.sectorsPerCluster >= 1
    ensures ReadsRight(disk, g, c, q) <==>
      Follow(disk, g, c, q / g.sectorsPerCluster) == c + q / g.sectorsPerCluster
  {
    hide Follow;
    var s := g.sectorsPerCluster as int;
    var f, k := Follow(disk, g, c, q / s), q / s;
    DivMod(q, s);
    assert DriverSector(g, c, q) - ChainSector(disk, g, c, q) == (c - 2) * s + k * s - (f - 2) * s;
    assert (c - 2) * s + k * s - (f - 2) * s == (c + k) * s - f * s;
    if (c + k) * s == f * s {
      MulCancel(c + k, f, s);
    }
  }

  lemma PieceOfCluster(size: nat, k: nat, s: int)
    requires s >= 1
    ensures (k * s < Pieces(size)) <==> k * (SECTOR * s) < size
    ensures (k * s) / s == k
  {
    assert k * (SECTOR * s) == SECTOR * (k * s);
    DivModUnique(k, s, 0);
  }

  /** The driver reads every piece of the file from the sector the file allocation table gives for
      it exactly when the chain is consecutive. */
  lemma AgreeIffConsecutive(disk: Disk, g: Geometry, c: nat, size: nat)
    requires g.sectorsPerCluster >= 1
    ensures Consecutive(disk, g, c, size) <==>
      forall q: nat :: q < Pieces(size) ==> ReadsRight(disk, g, c, q)
  {
    hide FatEntry, Follow, ReadsRight, Pieces;
    if Consecutive(disk, g, c, size) {
      forall q: nat | q < Pieces(size) ensures ReadsRight(disk, g, c, q) {
        PieceConsecutive(disk, g, c, size, q);
      }
    }
    if forall q: nat :: q < Pieces(size) ==> ReadsRight(disk, g, c, q) {
      forall k: nat {:trigger Linked(disk, g, c, k)} | (k + 1) * (SECTOR * g.sectorsPerCluster) < size
        ensures Linked(disk, g, c, k)
      {
        AgreesLinked(disk, g, c, size, k);
      }
    }
  }

  /** The clusters before the one that holds piece q lead on to another cluster of the file. */
  lemma EarlierCluster(size: nat, q: nat, s: int, i: nat)
    requires s >= 1 && q < Pieces(size) && i < q / s
    ensures (i + 1) * (SECTOR * s) < size
  {
    hide Pieces;
    DivMod(q, s);
    MulLe(i + 1, q / s, s);
    PieceOfCluster(size, i + 1, s);
  }

  lemma PieceConsecutive(disk: Disk, g: Geometry, c: nat, size: nat, q: nat)
    requires g.sectorsPerCluster >= 1 && Consecutive(disk, g, c, size) && q < Pieces(size)
    ensures ReadsRight(disk, g, c, q)
  {
    hide FatEntry, Follow, ReadsRight, Pieces;
    var s := g.sectorsPerCluster as int;
    forall i: nat | i < q / s ensures Linked(disk, g, c, i) {
      EarlierCluster(size, q, s, i);
    }
    FollowConsecutive(disk, g, c, q / s);
    SectorAgrees(disk, g, c, q);
  }

  lemma AgreesLinked(disk: Disk, g: Geometry, c: nat, size: nat, k: nat)
    requires g.sectorsPerCluster >= 1 && (k + 1) * (SECTOR * g.sectorsPerCluster) < size
    requires forall q: nat :: q < Pieces(size) ==> ReadsRight(disk, g, c, q)
    ensures Linked(disk, g, c, k)
  {
    hide FatEntry, ReadsRight, Pieces, Linked, Follow;
    var s := g.sectorsPerCluster as int;
    PieceOfCluster(size, k + 1, s);
    PieceOfCluster(size, k, s);
    MulLe(k, k + 1, s);
    MulNonneg(k, s);
    MulNonneg(k + 1, s);
    assert ReadsRight(disk, g, c, k * s);
    assert ReadsRight(disk, g, c, (k + 1) * s);
    SectorAgrees(disk, g, c, k * s);
    SectorAgrees(disk, g, c, (k + 1) * s);
    FollowNext(disk, g, c, k);
  }

  lemma MulNonneg(a: int, s: int)
    requires a >= 0 && s >= 0
    ensures a * s >= 0
  {
  }

  /** Byte j of what the driver reads comes from piece j / 512. */
  lemma {:induction false} ContiguousByte(disk: Disk, sector: uint32, size: nat, j: nat)
    requires j < |Contiguous(disk, sector, size)|
    ensures var s := disk(Wrap32(sector + j / SECTOR));
      s.Data? && Contiguous(disk, sector, size)[j] == s.bytes[j % SECTOR]
    decreases size
  {
    hide Contiguous;
    ContiguousStep(disk, sector, size);
    if j >= SECTOR {
      var next := Wrap32(sector + 1);
      ContiguousByte(disk, next, size - SECTOR, j - SECTOR);
      NextPiece(sector, j);
    }
  }

  /** Counting pieces from the next sector. */
  lemma NextPiece(sector: uint32, j: nat)
    requires j >= SECTOR
    ensures (j - SECTOR) / SECTOR == j / SECTOR - 1 && (j - SECTOR) % SECTOR == j % SECTOR
    ensures Wrap32(Wrap32(sector + 1) + (j - SECTOR) / SECTOR) == Wrap32(sector + j / SECTOR)
  {
  }

  /** On a volume whose sectors are numbered in 32 bits the driver's arithmetic does not wrap. */
  lemma DriverSectorExact(g: Geometry, c: nat, q: nat)
    requires 2 <= c < 0x1_0000 && DriverSector(g, c, q) < 0x1_0000_0000
    ensures Wrap32(ClusterSector(g, c) + q) == DriverSector(g, c, q)
  {
    assert (c - 2) * g.sectorsPerCluster >= 0;
  }

  predicate PieceReadable(disk: Disk, sector: uint32, q: nat) {
    disk(Wrap32(sector + q)).Data?
  }

  /** Without read errors the whole of the requested size is delivered. */
  lemma {:induction false} ContiguousFull(disk: Disk, sector: uint32, size: nat)
    requires forall q: nat :: q < Pieces(size) ==> PieceReadable(disk, sector, q)
    ensures |Contiguous(disk, sector, size)| == size
    decreases size
  {
    hide Contiguous, PieceReadable;
    ContiguousStep(disk, sector, size);
    if size > 0 {
      FirstReadable(disk, sector);
    }
    if size > SECTOR {
      var next := Wrap32(sector + 1);
      NextReadable(disk, sector, next, size);
      ContiguousFull(disk, next, size - SECTOR);
    }
  }

  lemma FirstReadable(disk: Disk, sector: uint32)
    ensures PieceReadable(disk, sector, 0) <==> disk(sector).Data?
  {
  }

  lemma NextReadable(disk: Disk, sector: uint32, next: uint32, size: nat)
    requires size > SECTOR && next == Wrap32(sector + 1)
    requires forall q: nat :: q < Pieces(size) ==> PieceReadable(disk, sector, q)
    ensures forall q: nat :: q < Pieces(size - SECTOR) ==> PieceReadable(disk, next, q)
  {
    forall q: nat | q < Pieces(size - SECTOR) ensures PieceReadable(disk, next, q) {
      assert PieceReadable(disk, sector, q + 1);
    }
  }

  // ---------- The driver against the chain ----------

  /** Sector numbers of a volume with this geometry, for files below 4 GB, fit 32 bits. */
  predicate Fits32(g: Geometry) {
    g.sectorsPerCluster >= 1 && g.dataStart < 0x200_0000
  }

  lemma BootFits(b: seq<byte>)
    requires Byte(b, 13) >= 1
    ensures Fits32(BootGeometry(b))
  {
    hide U16, Byte;
    GeometryBounds(Byte(b, 16), U16(b, 22));
  }

  lemma PieceSector(disk: Disk, g: Geometry, c: nat, size: uint32, q: nat)
    requires Fits32(g) && 2 <= c < 0x1_0000 && q < Pieces(size) && ReadsRight(disk, g, c, q)
    ensures HasPiece(disk, g, c, q)
    ensures Wrap32(ClusterSector(g, c) + q) == DriverSector(g, c, q) == ChainSector(disk, g, c, q)
  {
    hide Follow, ChainSector;
    MulNonneg(c - 2, g.sectorsPerCluster);
    MulLe(c - 2, 0xFFFF, g.sectorsPerCluster);
    MulLe(g.sectorsPerCluster, 255, 0xFFFF);
    DriverSectorExact(g, c, q);
  }

  /** The driver, which never looks at the file allocation table, reads exactly what following it
      would give whenever the chain is consecutive, read errors included. */
  lemma {:induction false} ContiguousFollowsChain(disk: Disk, g: Geometry, c: nat, size: uint32, q: nat)
    requires Fits32(g) && 2 <= c < 0x1_0000 && Consecutive(disk, g, c, size) && SECTOR * q <= size
    ensures Contiguous(disk, Wrap32(ClusterSector(g, c) + q), size - SECTOR * q) == ChainRead(disk, g, c, size, q)
    decreases size - SECTOR * q
  {
    hide Contiguous, ChainRead, ClusterSector, Consecutive, ChainSector, HasPiece, DriverSector, ReadsRight, Follow;
    var sector: int := Wrap32(ClusterSector(g, c) + q);
    ContiguousStep(disk, sector, size - SECTOR * q);
    ChainStep(disk, g, c, size, q);
    if SECTOR * q < size {
      PieceConsecutive(disk, g, c, size, q);
      PieceSector(disk, g, c, size, q);
      if size - SECTOR * q > SECTOR {
        assert Wrap32(sector + 1) == Wrap32(ClusterSector(g, c) + (q + 1));
        ContiguousFollowsChain(disk, g, c, size, q + 1);
      }
    }
  }

  /** Byte j of what the driver delivers is byte j % 512 of the sector that the file allocation table
      gives for piece j / 512, if the chain is consecutive. */
  lemma DeliveredByte(disk: Disk, g: Geometry, c: nat, size: uint32, j: nat)
    requires Fits32(g) && 2 <= c < 0x1_0000 && Consecutive(disk, g, c, size)
    requires j < |Contiguous(disk, ClusterSector(g, c), size)|
    ensures HasPiece(disk, g, c, j / SECTOR)
    ensures var s := disk(ChainSector(disk, g, c, j / SECTOR));
      s.Data? && Contiguous(disk, ClusterSector(g, c), size)[j] == s.bytes[j % SECTOR]
  {
    hide Contiguous, ClusterSector, Consecutive, ChainSector, HasPiece, DriverSector, ReadsRight, Follow;
    ContiguousByte(disk, ClusterSector(g, c), size, j);
    PieceConsecutive(disk, g, c, size, j / SECTOR);
    PieceSector(disk, g, c, size, j / SECTOR);
  }

  /** fat16_read_file delivers what following the file's chain would, if the chain is consecutive. */
  lemma FileDataFollowsChain(disk: Disk, b: seq<byte>, k: nat, maxSize: uint32)
    requires Byte(b, 13) >= 1 && Readable(disk, BootGeometry(b).rootStart, k)
    requires var g := BootGeometry(b); var e := EntryAt(disk, g.rootStart, k);
      Cluster(e) >= 2 && Consecutive(disk, g, Cluster(e), Min(FileSize(e), maxSize))
    ensures var g := BootGeometry(b); var e := EntryAt(disk, g.rootStart, k);
      FileData(disk, g, k, maxSize) == ChainRead(disk, g, Cluster(e), Min(FileSize(e), maxSize), 0)
  {
    hide EntryAt, Contiguous, ChainRead, Consecutive, BootGeometry;
    BootFits(b);
    var e := EntryAt(disk, BootGeometry(b).rootStart, k);
    ContiguousFollowsChain(disk, BootGeometry(b), Cluster(e), Min(FileSize(e), maxSize), 0);
  }

  /** A disk whose file allocation table, at sector 1, has cluster 2 followed by cluster 4, and whose
      other sectors are filled with their own number. */
  function FragmentedDisk(lba: uint32): Sector {
    if lba == 1 then Data(seq(SECTOR, i => if i == 4 then 4 else if i == 8 || i == 9 then 0xFF else 0))
    else Data(seq(SECTOR, _ => (lba % 256) as byte))
  }

  /** A file of 513 bytes on it: the driver takes the last byte from cluster 3, sector 4. */
  lemma FragmentedRead()
    ensures var g := Geometry(1, 2, 3, 16, 1);
      && !Consecutive(FragmentedDisk, g, 2, 513)
      && |Contiguous(FragmentedDisk, ClusterSector(g, 2), 513)| == |ChainRead(FragmentedDisk, g, 2, 513, 0)| == 513
      && Contiguous(FragmentedDisk, ClusterSector(g, 2), 513)[512] == 4
      && ChainRead(FragmentedDisk, g, 2, 513, 0)[512] == 5
  {
    hide Contiguous, ChainRead, FragmentedDisk, Follow, FatEntry;
    var g := Geometry(1, 2, 3, 16, 1);
    FragmentedFat(g);
    FragmentedSector(3);
    FragmentedSector(4);
    FragmentedSector(5);
    ContiguousStep(FragmentedDisk, 3, 513);
    ContiguousStep(FragmentedDisk, 4, 1);
    FragmentedPieces(g);
    ChainStep(FragmentedDisk, g, 2, 513, 0);
    ChainStep(FragmentedDisk, g, 2, 513, 1);
    assert (0 + 1) * (SECTOR * g.sectorsPerCluster) < 513 && !Linked(FragmentedDisk, g, 2, 0);
  }

  lemma FragmentedPieces(g: Geometry)
    requires g == Geometry(1, 2, 3, 16, 1)
    ensures HasPiece(FragmentedDisk, g, 2, 0) && ChainSector(FragmentedDisk, g, 2, 0) == 3
    ensures HasPiece(FragmentedDisk, g, 2, 1) && ChainSector(FragmentedDisk, g, 2, 1) == 5
  {
    hide FragmentedDisk, FatEntry;
    FragmentedFat(g);
    assert Follow(FragmentedDisk, g, 2, 0) == 2;
    assert Follow(FragmentedDisk, g, 2, 1) == 4;
  }

  lemma FragmentedSector(lba: uint32)
    requires 1 < lba < 256
    ensures FragmentedDisk(lba).Data? && forall i :: 0 <= i < SECTOR ==> FragmentedDisk(lba).bytes[i] == lba
  {
  }

  lemma ChainStep(disk: Disk, g: Geometry, c: nat, size: nat, q: nat)
    requires g.sectorsPerCluster >= 1
    ensures ChainRead(disk, g, c, size, q) ==
      if SECTOR * q >= size || !HasPiece(disk, g, c, q) || disk(ChainSector(disk, g, c, q)).Unreadable? then []
      else if size - SECTOR * q <= SECTOR then disk(ChainSector(disk, g, c, q)).bytes[..size - SECTOR * q]
      else disk(ChainSector(disk, g, c, q)).bytes + ChainRead(disk, g, c, size, q + 1)
  {
    hide HasPiece, ChainSector;
  }

  lemma FragmentedFat(g: Geometry)
    requires g.fatStart == 1
    ensures FatEntry(FragmentedDisk, g, 2) == 4
  {
    var b := FragmentedDisk(1).bytes;
    assert Le(b, 5, 1) == 0;
    assert Le(b, 4, 2) == 4;
  }

  /** Its length, when every piece can be read. */
  lemma FileDataFull(disk: Disk, g: Geometry, k: nat, maxSize: nat)
    requires Readable(disk, g.rootStart, k)
    requires var e := EntryAt(disk, g.rootStart, k);
      forall q: nat :: q < Pieces(Min(FileSize(e), maxSize)) ==> PieceReadable(disk, ClusterSector(g, Cluster(e)), q)
    ensures |FileData(disk, g, k, maxSize)| == Min(FileSize(EntryAt(disk, g.rootStart, k)), maxSize)
  {
    hide EntryAt, Contiguous, ClusterSector, PieceReadable, Pieces;
    var e := EntryAt(disk, g.rootStart, k);
    ContiguousFull(disk, ClusterSector(g, Cluster(e)), Min(FileSize(e), maxSize));
  }

  // ---------- The geometry of the FAT specification ----------

  /** "FAT Data Structure" of Microsoft's FAT specification, version 1.03: FirstDataSector from the
      BIOS parameter block in b. */
  function FirstDataSector(b: seq<byte>): int
    requires U16(b, 11) > 0
  {
    U16(b, 14) + Byte(b, 16) * U16(b, 22) + RootDirSectors(U16(b, 17), U16(b, 11))
  }

  function RootDirSectors(entries: uint16, bytesPerSector: uint16): nat
    requires bytesPerSector > 0
  {
    (entries * 32 + (bytesPerSector - 1)) / bytesPerSector
  }

  lemma SameRootSectors(entries: uint16, bytesPerSector: uint16)
    requires bytesPerSector == 512
    ensures RootDirSectors(entries, bytesPerSector) == RootSectors(entries)
  {
  }

  /** The driver places clusters where the specification does on volumes with 512-byte sectors. */
  lemma GeometrySpec(b: seq<byte>, c: nat)
    requires U16(b, 11) == 512 && 2 <= c < 0x1_0000
    ensures BootGeometry(b).dataStart == FirstDataSector(b)
    ensures ClusterSector(BootGeometry(b), c) == (c - 2) * Byte(b, 13) + FirstDataSector(b)
  {
    hide U16, RootDirSectors, RootSectors, Byte;
    GeometryBounds(Byte(b, 16), U16(b, 22));
    SameRootSectors(U16(b, 17), U16(b, 11));
    ClusterOffset(c, Byte(b, 13));
  }

  lemma ClusterOffset(c: nat, perCluster: byte)
    requires 2 <= c < 0x1_0000
    ensures 0 <= (c - 2) * perCluster <= 0xFFFF * 255
  {
    MulLe(c - 2, 0xFFFF, perCluster);
    assert (c - 2) * perCluster >= 0;
  }

  /** Where directory entry l of the volume with boot sector b stands: in a sector from
      FirstRootDirSecNum, BPB_RsvdSecCnt + BPB_NumFATs * BPB_FATSz16, on; nothing if it is unreadable. */
  function DirectoryBytes(disk: Disk, b: seq<byte>, l: nat): seq<byte> {
    var lba := U16(b, 14) + Byte(b, 16) * U16(b, 22) + l / 16;
    if !(0 <= lba < 0x1_0000_0000) then []
    else
      match disk(lba)
      case Unreadable => []
      case Data(bytes) => bytes[32 * (l % 16)..32 * (l % 16) + 32]
  }

  /** The directory scan reads the sectors from FirstRootDirSecNum to FirstDataSector, and finds in them
      the entries the specification puts there; the file allocation table starts behind the reserved
      sectors. */
  lemma RootRegion(disk: Disk, b: seq<byte>, l: nat)
    requires U16(b, 11) == 512 && l < 16 * RootSectors(BootGeometry(b).rootEntries)
    ensures BootGeometry(b).fatStart == U16(b, 14)
    ensures BootGeometry(b).rootStart == U16(b, 14) + Byte(b, 16) * U16(b, 22)
    ensures BootGeometry(b).rootStart + l / 16 < FirstDataSector(b)
    ensures Readable(disk, BootGeometry(b).rootStart, l) <==> DirectoryBytes(disk, b, l) != []
    ensures Readable(disk, BootGeometry(b).rootStart, l) ==>
      EntryAt(disk, BootGeometry(b).rootStart, l) == DirectoryBytes(disk, b, l)
  {
    hide U16, RootSectors, RootDirSectors, Byte;
    GeometryBounds(Byte(b, 16), U16(b, 22));
    SameRootSectors(U16(b, 17), U16(b, 11));
  }

  /** The 16-bit entry of cluster c of the table that starts behind the reserved sectors. */
  lemma FatEntryBytes(disk: Disk, b: seq<byte>, c: nat)
    requires c < 0x1_0000
    ensures FatEntry(disk, BootGeometry(b), c) ==
      match disk(Wrap32(U16(b, 14) + c / 256))
      case Unreadable => 0xFFFF
      case Data(bytes) => Two(bytes[2 * (c % 256)], bytes[2 * (c % 256) + 1])
  {
    hide U16;
    assert 2 * c / 512 == c / 256 && 2 * c % 512 == 2 * (c % 256);
    match disk(Wrap32(U16(b, 14) + c / 256))
    case Unreadable =>
    case Data(bytes) => WordBytes(bytes, 2 * (c % 256));
  }

  /** Byte j of the contents of the file whose directory entry is e: byte j mod 512 of sector
      FirstDataSector + (cluster - 2) * BPB_SecPerClus + j div 512, the cluster being in bytes 26 and 27;
      -1 if it is unreadable. */
  function ContentByte(disk: Disk, b: seq<byte>, e: seq<byte>, j: nat): int
    requires |e| == 32 && U16(b, 11) > 0
  {
    var lba := FirstDataSector(b) + (Two(e[26], e[27]) - 2) * Byte(b, 13) + j / 512;
    if !(0 <= lba < 0x1_0000_0000) then -1
    else
      match disk(lba)
      case Unreadable => -1
      case Data(bytes) => bytes[j % 512]
  }

  /** Every byte fat16_read_file delivers of the file at directory index l, from the bytes of the disk;
      the size is in bytes 28 to 31 of the entry. */
  lemma FileByte(disk: Disk, b: seq<byte>, l: nat, maxSize: uint32, j: nat)
    requires U16(b, 11) == 512 && l < 16 * RootSectors(BootGeometry(b).rootEntries)
    requires Readable(disk, BootGeometry(b).rootStart, l)
    requires j < |FileData(disk, BootGeometry(b), l, maxSize)|
    ensures var e := DirectoryBytes(disk, b, l);
      && |e| == 32
      && j < Four(e[28], e[29], e[30], e[31]) && j < maxSize
      && (Two(e[26], e[27]) >= 2 ==> FileData(disk, BootGeometry(b), l, maxSize)[j] == ContentByte(disk, b, e, j))
  {
    hide BootGeometry, EntryAt, U16, Word, Contiguous, ClusterSector, FirstDataSector, Byte, ContentByte, RootSectors,
      Readable, DirectoryBytes;
    var g := BootGeometry(b);
    var e := EntryAt(disk, g.rootStart, l);
    RootRegion(disk, b, l);
    EntryFields(e);
    if Cluster(e) >= 2 {
      StoredByte(disk, b, e, Min(FileSize(e), maxSize), j);
    }
  }

  lemma StoredByte(disk: Disk, b: seq<byte>, e: seq<byte>, size: uint32, j: nat)
    requires U16(b, 11) == 512 && |e| == 32 && Cluster(e) >= 2
    requires j < |Contiguous(disk, ClusterSector(BootGeometry(b), Cluster(e)), size)|
    ensures Contiguous(disk, ClusterSector(BootGeometry(b), Cluster(e)), size)[j] == ContentByte(disk, b, e, j)
  {
    hide BootGeometry, U16, Word, Contiguous, ClusterSector, FirstDataSector, Byte;
    var g := BootGeometry(b);
    EntryFields(e);
    ContiguousByte(disk, ClusterSector(g, Cluster(e)), size, j);
    GeometrySpec(b, Cluster(e));
    DataSectorFits(b, Cluster(e), j);
  }

  lemma EntryFields(e: seq<byte>)
    requires |e| == 32
    ensures Cluster(e) == Two(e[26], e[27])
    ensures FileSize(e) == Four(e[28], e[29], e[30], e[31])
  {
    hide U16, Word;
    WordBytes(e, 26);
    WordBytes(e, 28);
  }

  lemma DataSectorFits(b: seq<byte>, c: nat, j: nat)
    requires U16(b, 11) == 512 && 2 <= c < 0x1_0000 && j < 0x1_0000_0000
    ensures 0 <= FirstDataSector(b) + (c - 2) * Byte(b, 13) + j / 512 < 0x1_0000_0000
  {
    hide U16, Byte;
    GeometryBounds(Byte(b, 16), U16(b, 22));
    ClusterOffset(c, Byte(b, 13));
  }
}
