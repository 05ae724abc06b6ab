/**
 The mounted volume as data: its geometry as find_volume leaves it (ff.c, mount_volume),
 the logical disk seen through the sector window, and the bit-packed FAT entries
 of the Microsoft FAT32 File System Specification, section "FAT Data Structure".
 */
module Volume {
  import opened Bytes

  datatype FsType = Fat12 | Fat16 | Fat32

  /** The bytes of FAT that n entries need. */
  function FatBytes(t: FsType, n: nat): nat {
    match t
    case Fat12 => n * 3 / 2 + n % 2
    case Fat16 => 2 * n
    case Fat32 => 4 * n
  }

  function MaxClusters(t: FsType): nat {
    match t
    case Fat12 => 0xFF5
    case Fat16 => 0xFFF5
    case Fat32 => 0x0FFF_FFF5
  }

  /** The fields of FATFS that a mount fixes. */
  datatype Geometry = Geometry(
    fsType: FsType, nFats: nat, csize: nat, nRootdir: nat, nFatent: nat, fsize: nat,
    volbase: nat, fatbase: nat, dirbase: nat, database: nat)
  {
    /** Sectors taken by all FATs. */
    function FatArea(): nat {
      if nFats == 2 then fsize + fsize else fsize
    }

    /** What a successful mount has checked, and that the volume lies inside 32-bit LBA space. */
    ghost predicate Valid() {
      && (nFats == 1 || nFats == 2)
      && 0 < csize < 256 && PowerOfTwo(csize)
      && nRootdir % 16 == 0
      && 3 <= nFatent <= MaxClusters(fsType) + 2
      && (FatBytes(fsType, nFatent) + 511) / 512 <= fsize
      && volbase < fatbase
      && (fsType == Fat32 ==> volbase + 1 < fatbase && nRootdir == 0 && 2 <= dirbase)
      && (fsType != Fat32 ==> nRootdir > 0 && dirbase == fatbase + FatArea())
      && database == fatbase + FatArea() + nRootdir / 16
      && ClusterBase(nFatent) < 0xFFFF_FFFF && dirbase < 0x1_0000_0000
    }

    /** First sector of cluster c; ClusterBase(nFatent) is one past the data area. */
    function ClusterBase(c: nat): (s: nat)
      ensures s >= database
    {
      if c <= 2 then database else ClusterBase(c - 1) + csize
    }

    predicate InFat1(s: int) {
      fatbase <= s < fatbase + fsize
    }

    /** The mirror FAT: written behind the window, never read back. */
    predicate InFat2(s: int) {
      nFats == 2 && fatbase + fsize <= s < fatbase + 2 * fsize
    }
  }

  /**
   What the driver sees of the disk: every sector, with the dirty window laid over it.
   The mirror FAT is write-only, so it is blanked here and tied to the first FAT by Mirrored.
   */
  ghost function LogicalDisk(g: Geometry, disk: seq<Sector>, wflag: bool, winsect: nat, win: Sector): (l: seq<Sector>)
    ensures |l| == |disk|
  {
    seq(|disk|, s requires 0 <= s < |disk| =>
      if g.InFat2(s) then ZERO_SECTOR else if wflag && s == winsect then win else disk[s])
  }

  /** The second FAT repeats the first, except for a FAT sector waiting in the dirty window. */
  ghost predicate Mirrored(g: Geometry, disk: seq<Sector>, wflag: bool, winsect: nat) {
    g.nFats == 2 ==>
      forall s :: g.InFat1(s) && s + g.fsize < |disk| && !(wflag && s == winsect) ==>
        disk[s] == disk[s + g.fsize]
  }

  // ------------------------------------------------------------------ the FSInfo sector

  function Word16(s: Sector, o: nat): int
    requires o + 2 <= 512
  {
    Ld16(s[o], s[o + 1])
  }

  function Word32(s: Sector, o: nat): Dword
    requires o + 4 <= 512
  {
    Ld32(s[o], s[o + 1], s[o + 2], s[o + 3])
  }

  /** What a mount asks of the FSInfo sector of a FAT32 volume. */
  predicate Signed(s: Sector) {
    Word32(s, 0) == 0x4161_5252 && Word32(s, 484) == 0x6141_7272 && Word32(s, 508) == 0xAA55_0000
  }

  /** It is one, and gives this number of free clusters and this hint. */
  predicate Tells(s: Sector, free: Dword, next: Dword) {
    Signed(s) && Word32(s, 488) == free && Word32(s, 492) == next
  }

  // ------------------------------------------------------------------ clusters and sectors

  lemma {:induction false} ClusterBaseProduct(g: Geometry, c: nat)
    requires c >= 2
    ensures g.ClusterBase(c) == g.database + g.csize * (c - 2)
  {
    if c > 2 {
      ClusterBaseProduct(g, c - 1);
      assert g.csize * (c - 2) == g.csize * (c - 3) + g.csize;
    }
  }

  /** The geometry of a 1.44 MB floppy disk meets all that a mount asks for. */
  lemma FloppyIsValid()
    ensures Geometry(Fat12, 2, 1, 224, 2849, 9, 0, 1, 19, 33).Valid()
  {
    ClusterBaseProduct(Geometry(Fat12, 2, 1, 224, 2849, 9, 0, 1, 19, 33), 2849);
  }

  /** Clusters occupy disjoint, ascending runs of sectors. */
  lemma {:induction false} ClustersAscend(g: Geometry, c: nat, d: nat)
    requires 2 <= c < d
    ensures g.ClusterBase(c) + g.csize <= g.ClusterBase(d)
    decreases d
  {
    if c + 1 < d {
      ClustersAscend(g, c, d - 1);
    }
  }

  // ------------------------------------------------------------------ the FAT as bytes

  /** The first FAT, byte by byte. */
  ghost function FatImage(g: Geometry, l: seq<Sector>): (img: seq<Byte>)
    requires g.fatbase + g.fsize <= |l|
    ensures |img| == 512 * g.fsize
  {
    FatSectors(g, l, g.fsize)
  }

  ghost function FatSectors(g: Geometry, l: seq<Sector>, n: nat): (img: seq<Byte>)
    requires g.fatbase + n <= |l|
    ensures |img| == 512 * n
  {
    if n == 0 then [] else FatSectors(g, l, n - 1) + l[g.fatbase + n - 1]
  }

  /** Byte i of the FAT is in sector i / 512 of it. */
  lemma {:induction false} FatByte(g: Geometry, l: seq<Sector>, n: nat, i: nat)
    requires g.fatbase + n <= |l| && i < 512 * n
    ensures FatSectors(g, l, n)[i] == l[g.fatbase + i / 512][i % 512]
  {
    if i < 512 * (n - 1) {
      FatByte(g, l, n - 1, i);
    } else {
      assert i / 512 == n - 1 && i % 512 == i - 512 * (n - 1);
    }
  }

  lemma {:induction false} SameFatSectors(g: Geometry, l: seq<Sector>, m: seq<Sector>, n: nat)
    requires g.fatbase + n <= |l| && g.fatbase + n <= |m|
    requires forall s :: g.fatbase <= s < g.fatbase + n ==> m[s] == l[s]
    ensures FatSectors(g, m, n) == FatSectors(g, l, n)
  {
    if n > 0 {
      SameFatSectors(g, l, m, n - 1);
    }
  }

  lemma FatInsideDisk(g: Geometry)
    requires g.Valid()
    ensures g.fatbase + g.fsize <= g.database <= g.ClusterBase(g.nFatent)
    ensures FatBytes(g.fsType, g.nFatent) <= 512 * g.fsize
    ensures forall s :: g.InFat1(s) ==> !g.InFat2(s)
  {
  }

  // ------------------------------------------------------------------ entries

  /** First byte of entry c. */
  function EntryPos(t: FsType, c: nat): nat {
    match t
    case Fat12 => c + c / 2
    case Fat16 => 2 * c
    case Fat32 => 4 * c
  }

  function EntryLen(t: FsType): nat {
    if t == Fat32 then 4 else 2
  }

  lemma EntryFits(t: FsType, n: nat, c: nat)
    requires c < n
    ensures EntryPos(t, c) + EntryLen(t) <= FatBytes(t, n)
  {
    if t == Fat12 {
      assert c + c / 2 + 2 <= n * 3 / 2 + n % 2;
    }
  }

  /** The value of entry c: 12, 16 or 28 bits. */
  ghost function Entry(t: FsType, img: seq<Byte>, c: nat): (v: nat)
    requires EntryPos(t, c) + EntryLen(t) <= |img|
  {
    var p := EntryPos(t, c);
    match t
    case Fat12 => if c % 2 == 1 then Ld16(img[p], img[p + 1]) / 16 else Ld16(img[p], img[p + 1]) % 0x1000
    case Fat16 => Ld16(img[p], img[p + 1])
    case Fat32 => Ld32(img[p], img[p + 1], img[p + 2], img[p + 3]) % 0x1000_0000
  }

  /** The 4 reserved bits above a FAT32 entry; 0 for the narrower types. */
  ghost function Reserved(t: FsType, img: seq<Byte>, c: nat): nat
    requires EntryPos(t, c) + EntryLen(t) <= |img|
  {
    if t == Fat32 then img[4 * c + 3] / 16 else 0
  }

  /** The FAT as a plain array. */
  ghost function Table(t: FsType, n: nat, img: seq<Byte>): (fat: seq<nat>)
    requires FatBytes(t, n) <= |img|
    ensures |fat| == n
  {
    if n == 0 then [] else EntryFits(t, n, n - 1); Table(t, n - 1, img) + [Entry(t, img, n - 1)]
  }

  ghost function ReservedBits(t: FsType, n: nat, img: seq<Byte>): (bits: seq<nat>)
    requires FatBytes(t, n) <= |img|
    ensures |bits| == n
  {
    if n == 0 then [] else EntryFits(t, n, n - 1); ReservedBits(t, n - 1, img) + [Reserved(t, img, n - 1)]
  }

  lemma {:induction false} TableAt(t: FsType, n: nat, img: seq<Byte>, c: nat)
    requires FatBytes(t, n) <= |img| && c < n
    ensures EntryPos(t, c) + EntryLen(t) <= |img|
    ensures Table(t, n, img)[c] == Entry(t, img, c) && ReservedBits(t, n, img)[c] == Reserved(t, img, c)
    decreases n
  {
    hide Entry, Reserved;
    EntryFits(t, n, n - 1);
    if c < n - 1 {
      TableAt(t, n - 1, img, c);
    }
  }

  /** What an entry can hold of a 32-bit value. */
  function Truncated(t: FsType, v: Dword): nat {
    match t
    case Fat12 => v % 0x1000
    case Fat16 => v % 0x1_0000
    case Fat32 => v % 0x1000_0000
  }

  /** A stored end-of-chain mark always reads back as "no further cluster". */
  lemma EocEndsChain(g: Geometry, c: Dword)
    requires g.nFatent <= MaxClusters(g.fsType) + 2
    ensures Truncated(g.fsType, EOC) >= g.nFatent
    ensures c < g.nFatent ==> Truncated(g.fsType, c) == c
  {
  }

  // ------------------------------------------------------------------ entries as digits

  function Power(b: nat, n: nat): (p: nat)
    ensures b > 0 ==> p > 0
  {
    if n == 0 then 1 else b * Power(b, n - 1)
  }

  /** The FAT as one number, its least significant byte first. */
  ghost function Number(img: seq<Byte>): nat {
    if img == [] then 0 else img[0] + 256 * Number(img[1..])
  }

  /** The bits that an entry takes up, and those that it uses, as numbers of values. */
  function Base(t: FsType): nat {
    match t
    case Fat12 => 0x1000
    case Fat16 => 0x1_0000
    case Fat32 => 0x1_0000_0000
  }

  function Values(t: FsType): nat {
    if t == Fat32 then 0x1000_0000 else Base(t)
  }

  lemma BelowProduct(a: nat, b: nat, e: nat, r: nat)
    requires e < b && r < a
    ensures 0 <= a * e + r < a * b
  {
    assert a * (e + 1) <= a * b;
  }

  lemma DivProduct(x: nat, a: nat, b: nat)
    requires a > 0 && b > 0
    ensures a * b > 0 && x / (a * b) == x / a / b
  {
    var k, r := x / a, x % a;
    var q, e := k / b, k % b;
    BelowProduct(a, b, e, r);
    assert x == a * (b * q + e) + r == a * b * q + (a * e + r);
    ModUnique(x, a * b, q, a * e + r);
  }

  lemma {:induction false} DropBytes(img: seq<Byte>, p: nat)
    requires p <= |img|
    ensures Number(img) / Power(256, p) == Number(img[p..])
  {
    if p > 0 {
      DropBytes(img[1..], p - 1);
      DivProduct(Number(img), 256, Power(256, p - 1));
      assert img[1..][p - 1..] == img[p..];
    } else {
      assert img[0..] == img;
    }
  }

  lemma FourBytes(n: nat)
    ensures Power(256, n + 1) == 256 * Power(256, n) && Power(256, n + 2) == 0x1_0000 * Power(256, n)
    ensures Power(256, n + 3) == 0x100_0000 * Power(256, n) && Power(256, n + 4) == 0x1_0000_0000 * Power(256, n)
  {
    assert Power(256, n + 2) == 256 * Power(256, n + 1);
    assert Power(256, n + 3) == 256 * Power(256, n + 2);
    assert Power(256, n + 4) == 256 * Power(256, n + 3);
  }

  /** The power of the base below entry c is that of its first byte, times 16 if it starts in the middle of it. */
  lemma {:induction false} BasePower(t: FsType, c: nat)
    ensures Power(Base(t), c) == Power(256, EntryPos(t, c)) * if t == Fat12 && c % 2 == 1 then 16 else 1
  {
    if c > 0 {
      BasePower(t, c - 1);
      FourBytes(EntryPos(t, c - 1));
      assert EntryPos(t, c) == EntryPos(t, c - 1) + match t { case Fat12 => 2 - c % 2 case Fat16 => 2 case Fat32 => 4 };
    }
  }

  /** Entry c is digit c of that number, of 12, 16 or 32 bits, the last without its upper four. */
  lemma EntryIsDigit(t: FsType, img: seq<Byte>, c: nat)
    requires EntryPos(t, c) + EntryLen(t) <= |img|
    ensures Entry(t, img, c) == Number(img) / Power(Base(t), c) % Values(t)
  {
    hide Power, Number, Ld16, Ld32;
    var p := EntryPos(t, c);
    ShiftedTo(t, img, c);
    LowBytes(img[p..], t == Fat32);
    DigitAt(t, c, img[p], img[p + 1], if t == Fat32 then Ld16(img[p + 2], img[p + 3]) else 0, Number(img[p..]));
    if t == Fat32 { HalfWords(img[p], img[p + 1], img[p + 2], img[p + 3]); }
  }

  lemma ShiftedTo(t: FsType, img: seq<Byte>, c: nat)
    requires EntryPos(t, c) <= |img|
    ensures Number(img) / Power(Base(t), c) == Number(img[EntryPos(t, c)..]) / if t == Fat12 && c % 2 == 1 then 16 else 1
  {
    hide Power, Number;
    BasePower(t, c);
    DropBytes(img, EntryPos(t, c));
    DivProduct(Number(img), Power(256, EntryPos(t, c)), if t == Fat12 && c % 2 == 1 then 16 else 1);
  }

  lemma HalfWords(b0: Byte, b1: Byte, b2: Byte, b3: Byte)
    ensures Ld32(b0, b1, b2, b3) == Ld16(b0, b1) + 0x1_0000 * Ld16(b2, b3)
  {
  }

  lemma TwoBytes(img: seq<Byte>)
    requires |img| >= 2
    ensures Number(img) == Ld16(img[0], img[1]) + 0x1_0000 * Number(img[2..])
  {
    assert img[1..][1..] == img[2..];
  }

  lemma LowBytes(img: seq<Byte>, four: bool)
    requires |img| >= if four then 4 else 2
    ensures exists k: nat :: Number(img) == Ld16(img[0], img[1]) + 0x1_0000 * k
    ensures four ==> exists k: nat :: Number(img) == Ld16(img[0], img[1]) + 0x1_0000 * Ld16(img[2], img[3]) + 0x1_0000_0000 * k
  {
    TwoBytes(img);
    if four {
      TwoBytes(img[2..]);
      var k := Number(img[2..][2..]);
      assert Number(img) == Ld16(img[0], img[1]) + 0x1_0000 * Ld16(img[2], img[3]) + 0x1_0000_0000 * k;
    }
  }

  /** What the low digits of a number are. */
  lemma DigitAt(t: FsType, c: nat, b0: Byte, b1: Byte, high: nat, n: nat)
    requires high < 0x1_0000
    requires if t == Fat32 then exists k: nat :: n == Ld16(b0, b1) + 0x1_0000 * high + 0x1_0000_0000 * k
             else exists k: nat :: n == Ld16(b0, b1) + 0x1_0000 * k
    ensures t == Fat12 && c % 2 == 1 ==> n / 16 % 0x1000 == Ld16(b0, b1) / 16
    ensures t == Fat12 && c % 2 == 0 ==> n % 0x1000 == Ld16(b0, b1) % 0x1000
    ensures t == Fat16 ==> n % 0x1_0000 == Ld16(b0, b1)
    ensures t == Fat32 ==> n % 0x1000_0000 == (Ld16(b0, b1) + 0x1_0000 * high) % 0x1000_0000
  {
    var w := Ld16(b0, b1);
    if t == Fat32 {
      var k: nat :| n == w + 0x1_0000 * high + 0x1_0000_0000 * k;
      var v := w + 0x1_0000 * high;
      ModUnique(n, 0x1000_0000, 16 * k + v / 0x1000_0000, v % 0x1000_0000);
    } else {
      var k: nat :| n == w + 0x1_0000 * k;
      Nibble(w, k);
      ModUnique(n, 0x1000, 16 * k + w / 0x1000, w % 0x1000);
      ModUnique(n, 0x1_0000, k, w);
    }
  }

  lemma Nibble(w: nat, n: nat)
    requires w < 0x1_0000
    ensures (w + 0x1_0000 * n) / 16 % 0x1000 == w / 16
  {
    ModUnique(w + 0x1_0000 * n, 16, w / 16 + 0x1000 * n, w % 16);
    ModUnique(w / 16 + 0x1000 * n, 0x1000, n, w / 16);
  }

  // ------------------------------------------------------------------ storing an entry

  /** The image after put_fat's byte stores: the foreign bits of shared bytes are merged back. */
  ghost function Stored(t: FsType, img: seq<Byte>, c: nat, v: Dword): (img': seq<Byte>)
    requires EntryPos(t, c) + EntryLen(t) <= |img|
    ensures |img'| == |img|
  {
    var p := EntryPos(t, c);
    match t
    case Fat12 => img[p := FirstByte12(img[p], c, v)][p + 1 := SecondByte12(img[p + 1], c, v)]
    case Fat16 => img[p := ByteOf(v, 0)][p + 1 := ByteOf(v, 1)]
    case Fat32 =>
      var w := MergedWord(v, img[p + 3]);
      img[p := ByteOf(w, 0)][p + 1 := ByteOf(w, 1)][p + 2 := ByteOf(w, 2)][p + 3 := ByteOf(w, 3)]
  }

  function FirstByte12(was: Byte, c: nat, v: Dword): Byte {
    if c % 2 == 1 then was % 16 + 16 * (v % 16) else v % 256
  }

  function SecondByte12(was: Byte, c: nat, v: Dword): Byte {
    if c % 2 == 1 then v / 16 % 256 else was / 16 * 16 + v / 256 % 16
  }

  function MergedWord(v: Dword, oldTop: Byte): Dword {
    v % 0x1000_0000 + 0x1000_0000 * (oldTop / 16)
  }

  /** Which nibbles of its two bytes a 12-bit entry uses. */
  lemma Nibbles(b0: Byte, b1: Byte)
    ensures Ld16(b0, b1) / 16 == b0 / 16 + 16 * b1
    ensures Ld16(b0, b1) % 0x1000 == b0 + 256 * (b1 % 16)
  {
    var h0, l0, h1, l1 := b0 / 16, b0 % 16, b1 / 16, b1 % 16;
    assert b0 == 16 * h0 + l0 && b1 == 16 * h1 + l1;
    assert Ld16(b0, b1) == 16 * (h0 + 16 * b1) + l0;
    assert Ld16(b0, b1) == 0x1000 * h1 + (b0 + 256 * l1);
  }

  lemma OddNibbles(b0: Byte, b1: Byte, c: nat, v: Dword)
    requires c % 2 == 1
    ensures FirstByte12(b0, c, v) / 16 + 16 * SecondByte12(b1, c, v) == v % 0x1000
    ensures FirstByte12(b0, c, v) % 16 == b0 % 16
  {
    var l, h := v % 16, v / 16;
    ModUnique(v, 0x1000, h / 256, 16 * (h % 256) + l);
    ModUnique(b0 % 16 + 16 * l, 16, l, b0 % 16);
  }

  lemma EvenNibbles(b0: Byte, b1: Byte, c: nat, v: Dword)
    requires c % 2 == 0
    ensures FirstByte12(b0, c, v) + 256 * (SecondByte12(b1, c, v) % 16) == v % 0x1000
    ensures SecondByte12(b1, c, v) / 16 == b1 / 16
  {
    var h, m, q := b1 / 16, v / 256 % 16, v / 256 / 16;
    assert SecondByte12(b1, c, v) == 16 * h + m;
    MiddleNibble(v, m, q);
  }

  lemma MiddleNibble(v: Dword, m: nat, q: nat)
    requires v / 256 == 16 * q + m && m < 16
    ensures v % 256 + 256 * m == v % 0x1000
  {
    assert v == 0x1000 * q + (256 * m + v % 256);
  }

  /** A 12-bit entry reads back, and the nibble of its neighbour is kept. */
  lemma StoredNibbles(b0: Byte, b1: Byte, c: nat, v: Dword)
    ensures c % 2 == 1 ==> FirstByte12(b0, c, v) / 16 + 16 * SecondByte12(b1, c, v) == v % 0x1000
    ensures c % 2 == 0 ==> FirstByte12(b0, c, v) + 256 * (SecondByte12(b1, c, v) % 16) == v % 0x1000
    ensures c % 2 == 1 ==> FirstByte12(b0, c, v) % 16 == b0 % 16
    ensures c % 2 == 0 ==> SecondByte12(b1, c, v) / 16 == b1 / 16
  {
    if c % 2 == 1 {
      OddNibbles(b0, b1, c, v);
    } else {
      EvenNibbles(b0, b1, c, v);
    }
  }

  lemma StoredEntry12(img: seq<Byte>, c: nat, v: Dword)
    requires EntryPos(Fat12, c) + 2 <= |img|
    ensures Entry(Fat12, Stored(Fat12, img, c, v), c) == v % 0x1000
  {
    hide FirstByte12, SecondByte12, Ld16;
    var p := EntryPos(Fat12, c);
    StoredNibbles(img[p], img[p + 1], c, v);
    Nibbles(FirstByte12(img[p], c, v), SecondByte12(img[p + 1], c, v));
  }

  lemma StoredEntry32(img: seq<Byte>, c: nat, v: Dword)
    requires EntryPos(Fat32, c) + 4 <= |img|
    ensures Entry(Fat32, Stored(Fat32, img, c, v), c) == v % 0x1000_0000
    ensures Reserved(Fat32, Stored(Fat32, img, c, v), c) == Reserved(Fat32, img, c)
  {
    hide Ld32, ByteOf;
    var w := MergedWord(v, img[4 * c + 3]);
    StoreLoad32(w);
    TopByte(v, img[4 * c + 3]);
  }

  lemma TopByte(v: Dword, top: Byte)
    ensures MergedWord(v, top) % 0x1000_0000 == v % 0x1000_0000
    ensures ByteOf(MergedWord(v, top), 3) / 16 == top / 16
  {
  }

  /** The stored entry reads back, truncated to its width; its reserved bits are kept. */
  lemma StoredEntry(t: FsType, img: seq<Byte>, c: nat, v: Dword)
    requires EntryPos(t, c) + EntryLen(t) <= |img|
    ensures Entry(t, Stored(t, img, c, v), c) == Truncated(t, v)
    ensures Reserved(t, Stored(t, img, c, v), c) == Reserved(t, img, c)
  {
    match t
    case Fat12 => StoredEntry12(img, c, v);
    case Fat16 => StoreLoad32(v);
    case Fat32 => StoredEntry32(img, c, v);
  }

  /** Every other 12-bit entry reads as before, even the neighbour that shares a byte. */
  lemma OtherEntries12(img: seq<Byte>, c: nat, v: Dword, d: nat)
    requires EntryPos(Fat12, c) + 2 <= |img| && EntryPos(Fat12, d) + 2 <= |img| && c != d
    ensures Entry(Fat12, Stored(Fat12, img, c, v), d) == Entry(Fat12, img, d)
    ensures Entry(Fat12, img[EntryPos(Fat12, c) := FirstByte12(img[EntryPos(Fat12, c)], c, v)], d) == Entry(Fat12, img, d)
  {
    var p, q := EntryPos(Fat12, c), EntryPos(Fat12, d);
    var half := img[p := FirstByte12(img[p], c, v)];
    var full := Stored(Fat12, img, c, v);
    StoredNibbles(img[p], img[p + 1], c, v);
    Nibbles(img[q], img[q + 1]);
    Nibbles(half[q], half[q + 1]);
    Nibbles(full[q], full[q + 1]);
    if d + 1 < c {
      assert q + 1 < p;
    } else if c + 1 < d {
      assert p + 1 < q;
    } else if d == c + 1 {
      assert q == if c % 2 == 0 then p + 1 else p + 2;
    } else {
      assert p == if c % 2 == 1 then q + 1 else q + 2;
    }
  }

  lemma OtherEntriesKept(t: FsType, img: seq<Byte>, c: nat, v: Dword, d: nat)
    requires EntryPos(t, c) + EntryLen(t) <= |img| && EntryPos(t, d) + EntryLen(t) <= |img| && c != d
    ensures Entry(t, Stored(t, img, c, v), d) == Entry(t, img, d)
    ensures Reserved(t, Stored(t, img, c, v), d) == Reserved(t, img, d)
  {
    if t == Fat12 {
      OtherEntries12(img, c, v, d);
    }
  }

  /** As an array: one element changes, and none of the reserved bits. */
  lemma StoredTable(t: FsType, n: nat, img: seq<Byte>, c: nat, v: Dword)
    requires FatBytes(t, n) <= |img| && c < n
    ensures EntryPos(t, c) + EntryLen(t) <= |img|
    ensures Table(t, n, Stored(t, img, c, v)) == Table(t, n, img)[c := Truncated(t, v)]
    ensures ReservedBits(t, n, Stored(t, img, c, v)) == ReservedBits(t, n, img)
  {
    EntryFits(t, n, c);
    StoredEntry(t, img, c, v);
    forall d | 0 <= d < n && d != c
      ensures Table(t, n, Stored(t, img, c, v))[d] == Table(t, n, img)[d]
      ensures ReservedBits(t, n, Stored(t, img, c, v))[d] == ReservedBits(t, n, img)[d]
    {
      TableAt(t, n, img, d);
      TableAt(t, n, Stored(t, img, c, v), d);
      OtherEntriesKept(t, img, c, v, d);
    }
    TableAt(t, n, img, c);
    TableAt(t, n, Stored(t, img, c, v), c);
  }

  /** Only FAT12 has entries whose two bytes lie in two sectors. */
  predicate Straddles(t: FsType, c: nat) {
    t == Fat12 && EntryPos(Fat12, c) % 512 == 511
  }

  /** The first of them is that of cluster 341. */
  lemma FirstStraddle(t: FsType, c: nat)
    requires Straddles(t, c)
    ensures t == Fat12 && c >= 341
  {
  }

  /** Entry c of the table is left half stored, and no other changed. */
  ghost predicate Torn(t: FsType, fat: seq<nat>, f: seq<nat>, c: nat, v: Dword) {
    c < |fat| && Straddles(t, c) && f == fat[c := Half12(fat[c], c, v)]
  }

  /** What entry c, which read e, reads when only the first byte of a FAT12 store of v has been written. */
  function Half12(e: nat, c: nat, v: Dword): nat {
    if c % 2 == 1 then e / 16 * 16 + v % 16 else e / 256 * 256 + v % 256
  }

  lemma HalfStored(img: seq<Byte>, c: nat, v: Dword)
    requires EntryPos(Fat12, c) + 2 <= |img|
    ensures Entry(Fat12, img[EntryPos(Fat12, c) := FirstByte12(img[EntryPos(Fat12, c)], c, v)], c) == Half12(Entry(Fat12, img, c), c, v)
  {
    var p := EntryPos(Fat12, c);
    var b0, b1 := img[p], img[p + 1];
    Nibbles(b0, b1);
    Nibbles(FirstByte12(b0, c, v), b1);
    if c % 2 == 1 {
      ModUnique(b0 / 16 + 16 * b1, 16, b1, b0 / 16);
      ModUnique(b0 % 16 + 16 * (v % 16), 16, v % 16, b0 % 16);
    } else {
      ModUnique(b0 + 256 * (b1 % 16), 256, b1 % 16, b0);
    }
  }

  /** Half a FAT12 store (its second window move failed) does that to its entry and harms no other. */
  lemma HalfStoredTable(n: nat, img: seq<Byte>, c: nat, v: Dword)
    requires FatBytes(Fat12, n) <= |img| && c < n
    ensures EntryPos(Fat12, c) + 2 <= |img|
    ensures var half := img[EntryPos(Fat12, c) := FirstByte12(img[EntryPos(Fat12, c)], c, v)];
            Table(Fat12, n, half) == Table(Fat12, n, img)[c := Half12(Table(Fat12, n, img)[c], c, v)]
  {
    hide FirstByte12, Half12;
    EntryFits(Fat12, n, c);
    var half := img[EntryPos(Fat12, c) := FirstByte12(img[EntryPos(Fat12, c)], c, v)];
    forall d | 0 <= d < n
      ensures Table(Fat12, n, half)[d] == if d == c then Half12(Table(Fat12, n, img)[c], c, v) else Table(Fat12, n, img)[d]
    {
      TableAt(Fat12, n, img, d);
      TableAt(Fat12, n, half, d);
      if d == c { HalfStored(img, c, v); } else { OtherEntries12(img, c, v, d); }
    }
  }
}
