/** File names: how fat16_list_root prints a directory entry and how the shell turns what the user
    types back into the 11 bytes of an entry. */
module FatNames {
  import opened Bytes
  import opened FatSpec

  const SPACE: byte := 0x20
  const DOT: byte := 0x2E

  function Upper(c: byte): (r: byte)
    ensures !Lower(r)
  {
    if Lower(c) then c - 32 else c
  }

  predicate Lower(c: byte) {
    97 <= c <= 122
  }

  // ---------- The printer ----------

  /** The characters printed for a field: up to the first space; a NUL prints nothing. */
  function Chars(s: seq<byte>): (r: seq<byte>)
    ensures |r| <= |s|
    ensures forall i :: 0 <= i < |r| ==> r[i] != SPACE && r[i] != 0
  {
    if s == [] || s[0] == SPACE then []
    else if s[0] == 0 then Chars(s[1..])
    else [s[0]] + Chars(s[1..])
  }

  /** The name printed for an entry with these 11 bytes. */
  function Display(n: seq<byte>): seq<byte>
    requires |n| == 11
  {
    Chars(n[..8]) + if n[8] != SPACE then [DOT] + Chars(n[8..]) else []
  }

  // ---------- The parser ----------

  function UpperAll(s: seq<byte>): (r: seq<byte>)
    ensures |r| == |s|
    ensures forall i :: 0 <= i < |s| ==> r[i] == Upper(s[i])
  {
    seq(|s|, i requires 0 <= i < |s| => Upper(s[i]))
  }

  function Spaces(n: nat): (r: seq<byte>)
    ensures |r| == n
    ensures forall i :: 0 <= i < n ==> r[i] == SPACE
  {
    seq(n, _ => SPACE)
  }

  function Padded(s: seq<byte>, n: nat): (r: seq<byte>)
    requires |s| <= n
    ensures |r| == n
  {
    UpperAll(s) + Spaces(n - |s|)
  }

  /** Position of the first dot, or the length. */
  function DotAt(s: seq<byte>): (d: nat)
    ensures d <= |s|
    ensures d < |s| ==> s[d] == DOT
    ensures forall i :: 0 <= i < d ==> s[i] != DOT
  {
    if s == [] || s[0] == DOT then 0 else 1 + DotAt(s[1..])
  }

  /** to_fat_name: at most 8 characters before the first dot and at most 3 after it. */
  function ToFat(s: seq<byte>): (r: seq<byte>)
    ensures |r| == 11
  {
    var d := DotAt(s);
    Padded(s[..Min(d, 8)], 8) + if d < |s| then Padded(s[d + 1..Min(d + 4, |s|)], 3) else Spaces(3)
  }

  // ---------- They are inverse ----------

  predicate Plain(c: byte) {
    c != SPACE && c != 0 && !Lower(c)
  }

  /** k plain characters, none of them a dot unless dots are allowed, then spaces only. */
  predicate PaddedFrom(s: seq<byte>, dots: bool, k: nat) {
    && k <= |s|
    && (forall i :: 0 <= i < k ==> Plain(s[i]) && (s[i] == DOT ==> dots))
    && (forall i :: k <= i < |s| ==> s[i] == SPACE)
  }

  ghost predicate WellPadded(s: seq<byte>, dots: bool) {
    exists k: nat :: PaddedFrom(s, dots, k)
  }

  /** Upper case, right-padded, no inner space and no dot in the name. */
  ghost predicate WellFormed83(n: seq<byte>)
    requires |n| == 11
  {
    WellPadded(n[..8], false) && WellPadded(n[8..], true)
  }

  lemma {:induction false} CharsPadded(s: seq<byte>, dots: bool, k: nat)
    requires PaddedFrom(s, dots, k)
    ensures Chars(s) == s[..k]
  {
    if k > 0 {
      assert PaddedFrom(s[1..], dots, k - 1);
      CharsPadded(s[1..], dots, k - 1);
    }
  }

  lemma PaddedBack(s: seq<byte>, dots: bool, k: nat)
    requires PaddedFrom(s, dots, k)
    ensures Padded(s[..k], |s|) == s
  {
  }

  /** A field that the parser's padding gives back is well padded. */
  lemma PaddedIsWell(s: seq<byte>, p: seq<byte>, dots: bool)
    requires |p| <= |s| && s == Padded(p, |s|)
    requires forall i :: 0 <= i < |p| ==> p[i] != SPACE && p[i] != 0 && (p[i] == DOT ==> dots)
    ensures PaddedFrom(s, dots, |p|)
  {
  }

  lemma DotAtIs(s: seq<byte>, d: nat)
    requires d <= |s| && (forall i :: 0 <= i < d ==> s[i] != DOT) && (d < |s| ==> s[d] == DOT)
    ensures DotAt(s) == d
  {
  }

  /** Typing what was printed gives back the entry's 11 bytes. */
  lemma WellFormedRoundTrip(n: seq<byte>)
    requires |n| == 11 && WellFormed83(n)
    ensures ToFat(Display(n)) == n
  {
    hide Chars, Padded, DotAt, PaddedFrom;
    var name, ext := n[..8], n[8..];
    var k: nat :| PaddedFrom(name, false, k);
    var l: nat :| PaddedFrom(ext, true, l);
    CharsPadded(name, false, k);
    CharsPadded(ext, true, l);
    PaddedBack(name, false, k);
    PaddedBack(ext, true, l);
    FieldFacts(name, false, k);
    FieldFacts(ext, true, l);
    var d := Display(n);
    assert ext[0] == n[8];
    if n[8] != SPACE {
      assert d == name[..k] + [DOT] + ext[..l];
      DotAtIs(d, k);
      assert d[..k] == name[..k] && d[k + 1..Min(k + 4, |d|)] == ext[..l];
    } else {
      assert d == name[..k];
      DotAtIs(d, k);
      assert ext == Spaces(3);
    }
    assert n == name + ext;
  }

  lemma FieldFacts(s: seq<byte>, dots: bool, k: nat)
    requires PaddedFrom(s, dots, k) && s != []
    ensures k <= |s| && (s[0] == SPACE <==> k == 0)
    ensures !dots ==> forall i :: 0 <= i < k ==> s[i] != DOT
    ensures k == 0 ==> forall i :: 0 <= i < |s| ==> s[i] == SPACE
  {
  }

  /** The name the parser makes of a printed name that contains a dot is never the one printed. */
  lemma DotInName(n: seq<byte>)
    requires |n| == 11 && DOT in Chars(n[..8])
    ensures ToFat(Display(n)) != n
  {
    hide DotAt, Chars;
    var c := Chars(n[..8]);
    var d := Display(n);
    var p := DotAt(d);
    var j :| 0 <= j < |c| && c[j] == DOT;
    assert d[j] == c[j];
    assert p <= j;
    if ToFat(d) == n {
      var q := d[..p];
      assert q == c[..p];
      assert n[..8] == ToFat(d)[..8] == Padded(q, 8);
      PaddedIsWell(n[..8], q, false);
      CharsPadded(n[..8], false, p);
    }
  }

  /** An entry "A.B" with no extension prints as "A.B", which is taken for name A, extension B. */
  lemma DotExample()
    ensures var n := [65, DOT, 66] + Spaces(8);
      Display(n) == [65, DOT, 66] && ToFat(Display(n)) == [65] + Spaces(7) + [66] + Spaces(2)
  {
    var n := [65, DOT, 66] + Spaces(8);
    assert PaddedFrom(n[..8], true, 3);
    CharsPadded(n[..8], true, 3);
    assert n[..8][..3] == [65, DOT, 66];
    var s: seq<byte> := [65, DOT, 66];
    DotAtIs(s, 1);
    assert s[..1] == [65] && s[2..3] == [66];
  }

  /** Printing and parsing are inverse on exactly the well-formed 8.3 names. */
  lemma RoundTripIff(n: seq<byte>)
    requires |n| == 11
    ensures ToFat(Display(n)) == n <==> WellFormed83(n)
  {
    hide DotAt, Chars, Padded;
    if WellFormed83(n) {
      WellFormedRoundTrip(n);
    }
    if ToFat(Display(n)) == n {
      var c, x, d := Chars(n[..8]), Chars(n[8..]), Display(n);
      if DOT in c {
        DotInName(n);
      }
      assert forall i :: 0 <= i < |c| ==> c[i] != DOT;
      DotAtIs(d, |c|);
      assert d[..|c|] == c;
      assert n[..8] == ToFat(d)[..8] == Padded(c, 8);
      PaddedIsWell(n[..8], c, false);
      if n[8] != SPACE {
        assert d[|c| + 1..Min(|c| + 4, |d|)] == x;
        assert n[8..] == ToFat(d)[8..] == Padded(x, 3);
        PaddedIsWell(n[8..], x, true);
      } else {
        assert n[8..] == ToFat(d)[8..] == Spaces(3);
        assert PaddedFrom(n[8..], true, 0);
      }
    }
  }

  // ---------- Upper and lower case ----------

  /** What to_fat_name makes of every string, byte by byte; d is the place of the first dot, or the
      length. Letters are capitalised, a name is cut at 8 and an extension at 3, spaces fill up. */
  lemma ToFatBytes(s: seq<byte>, d: nat)
    requires d <= |s| && (d < |s| ==> s[d] == 46) && forall i :: 0 <= i < d ==> s[i] != 46
    ensures forall j :: 0 <= j < 8 ==>
      ToFat(s)[j] == if j >= d then 32 else if 97 <= s[j] <= 122 then s[j] - 32 else s[j]
    ensures forall j :: 8 <= j < 11 ==>
      ToFat(s)[j] == if d + j - 7 >= |s| then 32 else if 97 <= s[d + j - 7] <= 122 then s[d + j - 7] - 32 else s[d + j - 7]
  {
    hide Padded, DotAt;
    DotAtIs(s, d);
    PaddedBytes(s[..Min(d, 8)], 8);
    if d < |s| {
      PaddedBytes(s[d + 1..Min(d + 4, |s|)], 3);
    }
  }

  lemma PaddedBytes(s: seq<byte>, n: nat)
    requires |s| <= n
    ensures forall j :: 0 <= j < n ==>
      Padded(s, n)[j] == if j >= |s| then 32 else if 97 <= s[j] <= 122 then s[j] - 32 else s[j]
  {
  }

  /** s is t with any of its capital letters typed in lower case. */
  ghost predicate SameLetters(s: seq<byte>, t: seq<byte>) {
    |s| == |t| && forall i :: 0 <= i < |t| ==> s[i] == t[i] || (65 <= t[i] <= 90 && s[i] == t[i] + 32)
  }

  /** A well-formed name may be typed in upper or lower case, letter by letter. */
  lemma TypedInAnyCase(n: seq<byte>, s: seq<byte>)
    requires |n| == 11 && WellFormed83(n) && SameLetters(s, Display(n))
    ensures ToFat(s) == n
  {
    hide Display, ToFat, WellFormed83;
    var t := Display(n);
    var d := DotAt(t);
    NoLowerDisplayed(n);
    assert forall i :: 0 <= i < |t| ==> (s[i] == 46 <==> t[i] == 46);
    ToFatBytes(s, d);
    ToFatBytes(t, d);
    assert ToFat(s) == ToFat(t);
    WellFormedRoundTrip(n);
  }

  lemma NoLowerDisplayed(n: seq<byte>)
    requires |n| == 11 && WellFormed83(n)
    ensures forall i :: 0 <= i < |Display(n)| ==> !(97 <= Display(n)[i] <= 122)
  {
    var k: nat :| PaddedFrom(n[..8], false, k);
    var l: nat :| PaddedFrom(n[8..], true, l);
    CharsPadded(n[..8], false, k);
    CharsPadded(n[8..], true, l);
  }

  // ---------- Listing and reading agree ----------

  datatype Listing = Listing(name: seq<byte>, size: uint32, cluster: uint16)

  function Attributes(e: seq<byte>): byte {
    Byte(e, 11)
  }

  /** Printed by the lister: live, not a volume label (bit 3) and not a directory (bit 4). */
  predicate Shown(e: seq<byte>)
    requires |e| == ENTRY
  {
    Live(e) && Attributes(e) / 8 % 2 == 0 && Attributes(e) / 16 % 2 == 0
  }

  function Show(e: seq<byte>): Listing
    requires |e| == ENTRY
  {
    Listing(Display(NameOf(e)), FileSize(e), Cluster(e))
  }

  /** What fat16_list_root prints from entry k on. */
  function ListFrom(disk: Disk, root: uint32, n: nat, k: nat): seq<Listing>
    requires k <= PER_SECTOR * n
    decreases PER_SECTOR * n - k
  {
    if k == PER_SECTOR * n || !Readable(disk, root, k) then []
    else
      var e := EntryAt(disk, root, k);
      if e[0] == 0 then []
      else (if Shown(e) then [Show(e)] else []) + ListFrom(disk, root, n, k + 1)
  }

  /** The listing is made of exactly the shown entries that the scan reaches. */
  lemma {:induction false} ListedIff(disk: Disk, root: uint32, n: nat, k: nat, item: Listing)
    requires k <= PER_SECTOR * n
    requires forall j: nat :: j < k ==> Readable(disk, root, j) && EntryAt(disk, root, j)[0] != 0
    ensures item in ListFrom(disk, root, n, k) <==>
      exists l: nat :: l >= k && ListedAs(disk, root, n, l, item)
    decreases PER_SECTOR * n - k
  {
    hide EntryAt, Readable, Show;
    if k < PER_SECTOR * n && Readable(disk, root, k) && EntryAt(disk, root, k)[0] != 0 {
      ListedIff(disk, root, n, k + 1, item);
      assert Reached(disk, root, n, k);
      var e := EntryAt(disk, root, k);
      if Shown(e) && Show(e) == item {
        assert ListedAs(disk, root, n, k, item);
      }
    } else {
      forall l: nat | l >= k ensures !ListedAs(disk, root, n, l, item) {
      }
    }
  }

  /** item is the line printed for entry l. */
  ghost predicate ListedAs(disk: Disk, root: uint32, n: nat, l: nat, item: Listing) {
    && Reached(disk, root, n, l)
    && Shown(EntryAt(disk, root, l)) && Show(EntryAt(disk, root, l)) == item
  }

  /** Listing and reading agree. Typing the printed name of a listed entry selects that entry exactly
      when its 11 bytes are a well-formed name that no live entry before it bears. */
  lemma ListedIsFound(disk: Disk, root: uint32, n: nat, k: nat, item: Listing)
    requires ListedAs(disk, root, n, k, item)
    ensures var name := NameOf(EntryAt(disk, root, k));
      LookupFrom(disk, root, n, 0, ToFat(item.name)) == k <==>
      && WellFormed83(name)
      && forall j :: 0 <= j < k && Live(EntryAt(disk, root, j)) ==> NameOf(EntryAt(disk, root, j)) != name
  {
    hide EntryAt, ToFat, Display, WellFormed83;
    var name := NameOf(EntryAt(disk, root, k));
    RoundTripIff(name);
    LookupSpec(disk, root, n, ToFat(item.name));
    var r := LookupFrom(disk, root, n, 0, ToFat(item.name));
    if WellFormed83(name) && forall j :: 0 <= j < k && Live(EntryAt(disk, root, j)) ==> NameOf(EntryAt(disk, root, j)) != name {
      assert Selects(disk, root, n, name, k);
      SelectsOnce(disk, root, n, name, k, r);
    }
  }

  lemma SelectsOnce(disk: Disk, root: uint32, n: nat, name: seq<byte>, k: int, l: int)
    requires |name| == 11 && Selects(disk, root, n, name, k) && Selects(disk, root, n, name, l)
    ensures k == l
  {
    hide EntryAt, NameOf;
  }

  /** So does any way of typing it, in upper or lower case. */
  lemma TypedIsFound(disk: Disk, root: uint32, n: nat, k: nat, item: Listing, s: seq<byte>)
    requires ListedAs(disk, root, n, k, item) && SameLetters(s, item.name)
    requires WellFormed83(NameOf(EntryAt(disk, root, k)))
    requires forall j :: 0 <= j < k && Live(EntryAt(disk, root, j)) ==>
      NameOf(EntryAt(disk, root, j)) != NameOf(EntryAt(disk, root, k))
    ensures LookupFrom(disk, root, n, 0, ToFat(s)) == k
  {
    hide EntryAt, ToFat, Display, WellFormed83, SameLetters;
    TypedInAnyCase(NameOf(EntryAt(disk, root, k)), s);
    WellFormedRoundTrip(NameOf(EntryAt(disk, root, k)));
    ListedIsFound(disk, root, n, k, item);
  }

  // ---------- The directory in bytes ----------

  /** What is printed of a field: nothing from its first space on, and nothing for a NUL. */
  lemma CharsPrinted(a: seq<byte>, b: seq<byte>)
    requires forall i :: 0 <= i < |a| ==> a[i] != 32 && a[i] != 0
    ensures Chars(a + [32] + b) == a && Chars(a + [0] + b) == a + Chars(b)
  {
    hide Chars;
    CharsOf(a, [32] + b);
    CharsOf(a, [0] + b);
    CharsFirst(b);
    assert a + [32] + b == a + ([32] + b) && a + [0] + b == a + ([0] + b);
  }

  lemma CharsFirst(b: seq<byte>)
    ensures Chars([32] + b) == [] && Chars([0] + b) == Chars(b)
  {
    assert ([0] + b)[1..] == b;
  }

  lemma {:induction false} CharsOf(a: seq<byte>, b: seq<byte>)
    requires forall i :: 0 <= i < |a| ==> a[i] != 32 && a[i] != 0
    ensures Chars(a + b) == a + Chars(b)
    decreases |a|
  {
    if a == [] {
      assert a + b == b;
    } else {
      assert (a + b)[1..] == a[1..] + b;
      CharsOf(a[1..], b);
    }
  }

  /** What a line of the listing says of the 32 bytes of its entry: the first byte is neither the end
      marker nor that of a deleted entry, and neither volume label (8) nor directory (16) is among the
      attributes in byte 11; the name is from bytes 0 to 10, the size from bytes 28 to 31 and the first
      cluster from bytes 26 and 27. */
  ghost predicate LineOf(e: seq<byte>, item: Listing) {
    && |e| == 32
    && e[0] != 0 && e[0] != 0xE5 && e[11] / 8 % 2 == 0 && e[11] / 16 % 2 == 0
    && item.name == Display(e[..11])
    && item.size == Four(e[28], e[29], e[30], e[31]) && item.cluster == Two(e[26], e[27])
  }

  lemma ShownBytes(e: seq<byte>, item: Listing)
    requires |e| == 32
    ensures Shown(e) && Show(e) == item <==> LineOf(e, item)
  {
    hide Cluster, FileSize, Display, Two, Four;
    EntryFields(e);
  }

  /** The listing of a volume from the bytes of its disk, in the sectors from FirstRootDirSecNum on. */
  lemma ListedBytes(disk: Disk, b: seq<byte>, item: Listing)
    requires U16(b, 11) == 512
    ensures var g := BootGeometry(b);
      item in ListFrom(disk, g.rootStart, RootSectors(g.rootEntries), 0) <==>
      exists l: nat :: Reached(disk, g.rootStart, RootSectors(g.rootEntries), l) && LineOf(DirectoryBytes(disk, b, l), item)
  {
    hide LineOf, BootGeometry, EntryAt, Readable, DirectoryBytes, U16, Shown, Show, ListFrom, RootSectors;
    var g := BootGeometry(b);
    var n := RootSectors(g.rootEntries);
    ListedIff(disk, g.rootStart, n, 0, item);
    forall l: nat | Reached(disk, g.rootStart, n, l)
      ensures ListedAs(disk, g.rootStart, n, l, item) <==> LineOf(DirectoryBytes(disk, b, l), item)
    {
      RootRegion(disk, b, l);
      ShownBytes(EntryAt(disk, g.rootStart, l), item);
    }
  }
}
