/**
 Reading and changing one FAT entry through the window (ff.c, get_fat, put_fat).
 Both refine a plain array of numbers, whatever the entry width.
 */
module FatEntries {
  import opened Bytes
  import opened Volume
  import opened Window

  // ------------------------------------------------------- one byte of the FAT

  /** Changing the window and marking it dirty is an update of the logical disk. */
  lemma WindowUpdate(g: Geometry, disk: seq<Sector>, wflag: bool, winsect: nat, win: Sector, win': Sector)
    requires winsect < |disk| && !g.InFat2(winsect)
    requires !wflag ==> win == disk[winsect]
    ensures LogicalDisk(g, disk, wflag, winsect, win)[winsect] == win
    ensures LogicalDisk(g, disk, true, winsect, win') == LogicalDisk(g, disk, wflag, winsect, win)[winsect := win']
  {
  }

  lemma ImageUpdate(g: Geometry, l: seq<Sector>, i: nat, b: Byte)
    requires g.fatbase + g.fsize <= |l| && i < 512 * g.fsize
    ensures g.fatbase + i / 512 < |l|
    ensures var s := g.fatbase + i / 512;
            FatImage(g, l[s := l[s][i % 512 := b]]) == FatImage(g, l)[i := b]
  {
    var s := g.fatbase + i / 512;
    var m := l[s := l[s][i % 512 := b]];
    forall j | 0 <= j < 512 * g.fsize ensures FatImage(g, m)[j] == FatImage(g, l)[i := b][j] {
      FatByte(g, l, g.fsize, j);
      FatByte(g, m, g.fsize, j);
    }
  }

  /** The two logical disks differ in the first FAT only. */
  ghost predicate OutsideFatSame(g: Geometry, l: seq<Sector>, m: seq<Sector>) {
    && |m| == |l|
    && forall s :: 0 <= s < |l| && !g.InFat1(s) ==> m[s] == l[s]
  }

  lemma DiskBound(fs: FatFs)
    requires fs.Valid()
    ensures fs.win.Length == 512 && |fs.disk| <= 0xFFFF_FFFF && 3 <= fs.g.nFatent <= 0x0FFF_FFF7
    ensures fs.g.nFatent <= MaxClusters(fs.g.fsType) + 2
    ensures forall c: nat :: c < fs.g.nFatent ==> fs.Fat()[c] < 0x1000_0000
  {
    forall c: nat | c < fs.g.nFatent ensures fs.Fat()[c] < 0x1000_0000 {
      TableAt(fs.g.fsType, fs.g.nFatent, fs.Image(), c);
    }
  }

  /** What the entry functions need of a valid volume. */
  lemma EntryAddress(fs: FatFs, c: nat)
    requires fs.Valid() && c < fs.g.nFatent
    ensures EntryPos(fs.g.fsType, c) + EntryLen(fs.g.fsType) <= |fs.Image()| == 512 * fs.g.fsize
    ensures |fs.disk| <= 0xFFFF_FFFF
  {
    FatInsideDisk(fs.g);
    EntryFits(fs.g.fsType, fs.g.nFatent, c);
  }

  /** "*p = b; wflag = 1" at byte i of the FAT, whose sector is in the window. */
  method StoreFatByte(fs: FatFs, i: nat, b: Byte)
    requires fs.Valid() && i < 512 * fs.g.fsize && fs.winsect == fs.g.fatbase + i / 512
    modifies fs`wflag, fs.win
    ensures fs.Valid()
    ensures OutsideFatSame(fs.g, old(fs.Logical()), fs.Logical())
    ensures fs.Image() == old(fs.Image())[i := b]
  {
    ghost var l, w := fs.Logical(), fs.win[..];
    FatInsideDisk(fs.g);
    assert fs.g.InFat1(fs.winsect);
    fs.win[i % 512] := b;
    fs.wflag := true;
    WindowUpdate(fs.g, fs.disk, old(fs.wflag), fs.winsect, w, fs.win[..]);
    assert fs.win[..] == w[i % 512 := b];
    ImageUpdate(fs.g, l, i, b);
  }

  /** "fs->win[i % SS(fs)]" with byte i's sector in the window. */
  method LoadFatByte(fs: FatFs, i: nat) returns (b: Byte)
    requires fs.Valid() && i < 512 * fs.g.fsize && fs.winsect == fs.g.fatbase + i / 512
    ensures b == fs.Image()[i]
  {
    FatInsideDisk(fs.g);
    assert fs.g.InFat1(fs.winsect);
    WindowUpdate(fs.g, fs.disk, fs.wflag, fs.winsect, fs.win[..], fs.win[..]);
    FatByte(fs.g, fs.Logical(), fs.g.fsize, i);
    b := fs.win[i % 512];
  }

  /**
   The FAT functions leave every other sector on the device alone, except that they may
   flush the one that was in the window; the window itself stays or moves into the FAT.
   */
  ghost predicate DataKept(g: Geometry, disk: seq<Sector>, winsect: nat, disk': seq<Sector>, winsect': nat) {
    && |disk'| == |disk| <= 0xFFFF_FFFF
    && (forall s :: 0 <= s < |disk| && !g.InFat1(s) && !g.InFat2(s) && s != winsect ==> disk'[s] == disk[s])
    && (winsect' == winsect || g.InFat1(winsect') || winsect' == 0xFFFF_FFFF)
  }

  lemma NothingMoved(g: Geometry, disk: seq<Sector>, winsect: nat)
    requires |disk| <= 0xFFFF_FFFF
    ensures DataKept(g, disk, winsect, disk, winsect)
  {
  }

  lemma KeptSize(g: Geometry, disk: seq<Sector>, winsect: nat, disk': seq<Sector>, winsect': nat)
    requires DataKept(g, disk, winsect, disk', winsect')
    ensures |disk'| == |disk|
  {
  }

  lemma OutsideFatMoved(g: Geometry, l: seq<Sector>)
    ensures OutsideFatSame(g, l, l)
  {
  }

  lemma OutsideFatTwice(g: Geometry, l: seq<Sector>, m: seq<Sector>, n: seq<Sector>)
    requires OutsideFatSame(g, l, m) && OutsideFatSame(g, m, n)
    ensures OutsideFatSame(g, l, n)
  {
  }

  lemma DataKeptTwice(g: Geometry, a: seq<Sector>, w: nat, b: seq<Sector>, w': nat, c: seq<Sector>, w'': nat)
    requires DataKept(g, a, w, b, w') && DataKept(g, b, w', c, w'')
    ensures DataKept(g, a, w, c, w'')
  {
  }

  /** move_window to the sector of FAT byte i. */
  method MoveToFatByte(fs: FatFs, i: nat) returns (res: FResult)
    requires fs.Valid() && i < 512 * fs.g.fsize
    modifies fs`disk, fs`wflag, fs`faults, fs`lostWrites, fs`winsect, fs.win
    ensures fs.Valid()
    ensures fs.Logical() == old(fs.Logical()) && fs.Image() == old(fs.Image()) && fs.Fat() == old(fs.Fat())
    ensures res == Ok || (res == DiskErr && fs.faults > old(fs.faults))
    ensures res == Ok ==> fs.winsect == fs.g.fatbase + i / 512 && fs.g.InFat1(fs.winsect)
    ensures old(fs.winsect) == fs.g.fatbase + i / 512 ==> res == Ok
    ensures old(fs.Log()).Onward(fs.Log())
    ensures Quiet(old(fs.Pending()), old(fs.disk), fs.Pending(), fs.disk)
    ensures DataKept(fs.g, old(fs.disk), old(fs.winsect), fs.disk, fs.winsect)
  {
    FatInsideDisk(fs.g);
    assert fs.g.InFat1(fs.g.fatbase + i / 512);
    res := MoveWindow(fs, fs.g.fatbase + i / 512);
  }

  // ------------------------------------------------------- reading an entry

  /** An aligned entry does not cross a sector. */
  lemma AlignedEntry(p: nat, k: nat)
    requires (p % 2 == 0 && k < 2) || (p % 4 == 0 && k < 4)
    ensures (p + k) / 512 == p / 512
  {
    var q, r := p / 512, p % 512;
    assert p == 512 * q + r;
    assert r + k < 512;
  }

  lemma WordInSector(c: nat)
    ensures (4 * c + 1) / 512 == (4 * c + 2) / 512 == (4 * c + 3) / 512 == 4 * c / 512
  {
    assert 4 * c % 4 == 0 by { ModUnique(4 * c, 4, c, 0); }
    AlignedEntry(4 * c, 1);
    AlignedEntry(4 * c, 2);
    AlignedEntry(4 * c, 3);
  }

  lemma HalfWordInSector(c: nat)
    ensures (2 * c + 1) / 512 == 2 * c / 512
  {
    assert 2 * c % 2 == 0 by { ModUnique(2 * c, 2, c, 0); }
    AlignedEntry(2 * c, 1);
  }

  /** ld_16 of a FAT16 entry in the window. */
  method LoadEntry16(fs: FatFs, c: nat) returns (val: Dword)
    requires fs.Valid() && fs.g.fsType == Fat16 && c < fs.g.nFatent
    requires fs.winsect == fs.g.fatbase + 2 * c / 512
    ensures EntryPos(Fat16, c) + 2 <= |fs.Image()|
    ensures val == Entry(Fat16, fs.Image(), c) < 0x1_0000
  {
    hide FatFs.FsInfoTold, FatFs.Valid, FatFs.Logical, FatFs.Image;
    EntryAddress(fs, c);
    HalfWordInSector(c);
    var b0 := LoadFatByte(fs, 2 * c);
    var b1 := LoadFatByte(fs, 2 * c + 1);
    val := Ld16(b0, b1);
  }

  /** ld_32 of a FAT32 entry in the window, without its reserved bits. */
  method LoadEntry32(fs: FatFs, c: nat) returns (val: Dword)
    requires fs.Valid() && fs.g.fsType == Fat32 && c < fs.g.nFatent
    requires fs.winsect == fs.g.fatbase + 4 * c / 512
    ensures EntryPos(Fat32, c) + 4 <= |fs.Image()|
    ensures val == Entry(Fat32, fs.Image(), c) < 0x1000_0000
  {
    hide FatFs.FsInfoTold, FatFs.Valid, FatFs.Logical, FatFs.Image, Ld32;
    EntryAddress(fs, c);
    var p := 4 * c;
    WordInSector(c);
    var b0 := LoadFatByte(fs, p);
    var b1 := LoadFatByte(fs, p + 1);
    var b2 := LoadFatByte(fs, p + 2);
    var b3 := LoadFatByte(fs, p + 3);
    val := Ld32(b0, b1, b2, b3) % 0x1000_0000;
  }

  method GetFat(fs: FatFs, clst: Dword) returns (val: Dword)
    requires fs.Valid()
    modifies fs`disk, fs`wflag, fs`faults, fs`lostWrites, fs`winsect, fs.win
    ensures fs.Valid()
    ensures fs.Logical() == old(fs.Logical()) && fs.Fat() == old(fs.Fat())
    ensures old(fs.Log()).Onward(fs.Log())
    ensures Quiet(old(fs.Pending()), old(fs.disk), fs.Pending(), fs.disk)
    ensures clst < 2 || clst >= fs.g.nFatent ==> val == 1
    ensures 2 <= clst < fs.g.nFatent ==>
      (val == DISK_ERROR && fs.faults > old(fs.faults)) || val == fs.Fat()[clst] < 0x1000_0000
    ensures DataKept(fs.g, old(fs.disk), old(fs.winsect), fs.disk, fs.winsect)
  {
    hide FatFs.FsInfoTold, FatFs.Valid, FatFs.Logical, FatFs.Image;
    DiskBound(fs);
    if clst < 2 || clst >= fs.g.nFatent {
      val := 1;
      return;
    }
    match fs.g.fsType {
      case Fat12 => val := GetFat12(fs, clst);
      case Fat16 => val := GetFat16(fs, clst);
      case Fat32 => val := GetFat32(fs, clst);
    }
    TableAt(fs.g.fsType, fs.g.nFatent, fs.Image(), clst);
  }

  /** The window may have to move between the two bytes of a 12-bit entry. */
  method GetFat12(fs: FatFs, clst: Dword) returns (val: Dword)
    requires fs.Valid() && fs.g.fsType == Fat12 && 2 <= clst < fs.g.nFatent
    modifies fs`disk, fs`wflag, fs`faults, fs`lostWrites, fs`winsect, fs.win
    ensures fs.Valid()
    ensures fs.Logical() == old(fs.Logical()) && fs.Image() == old(fs.Image())
    ensures old(fs.Log()).Onward(fs.Log())
    ensures Quiet(old(fs.Pending()), old(fs.disk), fs.Pending(), fs.disk)
    ensures EntryPos(Fat12, clst) + 2 <= |fs.Image()|
    ensures (val == DISK_ERROR && fs.faults > old(fs.faults)) || val == Entry(Fat12, fs.Image(), clst) < 0x1000_0000
    ensures DataKept(fs.g, old(fs.disk), old(fs.winsect), fs.disk, fs.winsect)
  {
    hide FatFs.FsInfoTold, FatFs.Valid, FatFs.Logical, FatFs.Image, FatFs.Fat, DataKept;
    EntryAddress(fs, clst);
    ghost var g, d, s := fs.g, fs.disk, fs.winsect;
    val := DISK_ERROR;
    var bc := clst + clst / 2;
    var res, b0 := GetFatByte(fs, bc);
    if res != Ok { return; }
    ghost var d1, s1 := fs.disk, fs.winsect;
    var b1;
    res, b1 := GetFatByte(fs, bc + 1);
    DataKeptTwice(g, d, s, d1, s1, fs.disk, fs.winsect);
    if res != Ok { return; }
    var wc := Ld16(b0, b1);
    val := if clst % 2 == 1 then wc / 16 else wc % 0x1000;
  }

  /** One of the two bytes of a FAT12 entry. */
  method GetFatByte(fs: FatFs, i: nat) returns (res: FResult, b: Byte)
    requires fs.Valid() && i < 512 * fs.g.fsize
    modifies fs`disk, fs`wflag, fs`faults, fs`lostWrites, fs`winsect, fs.win
    ensures fs.Valid()
    ensures fs.Logical() == old(fs.Logical()) && fs.Image() == old(fs.Image())
    ensures old(fs.Log()).Onward(fs.Log())
    ensures Quiet(old(fs.Pending()), old(fs.disk), fs.Pending(), fs.disk)
    ensures i < |fs.Image()| && (if res == Ok then b == fs.Image()[i] else fs.faults > old(fs.faults))
    ensures DataKept(fs.g, old(fs.disk), old(fs.winsect), fs.disk, fs.winsect)
  {
    hide FatFs.FsInfoTold, FatFs.Valid, FatFs.Logical, FatFs.Image, FatFs.Fat, DataKept;
    b := 0;
    res := MoveToFatByte(fs, i);
    if res == Ok { b := LoadFatByte(fs, i); }
  }

  method GetFat16(fs: FatFs, clst: Dword) returns (val: Dword)
    requires fs.Valid() && fs.g.fsType == Fat16 && 2 <= clst < fs.g.nFatent
    modifies fs`disk, fs`wflag, fs`faults, fs`lostWrites, fs`winsect, fs.win
    ensures fs.Valid()
    ensures fs.Logical() == old(fs.Logical()) && fs.Image() == old(fs.Image())
    ensures old(fs.Log()).Onward(fs.Log())
    ensures Quiet(old(fs.Pending()), old(fs.disk), fs.Pending(), fs.disk)
    ensures EntryPos(Fat16, clst) + 2 <= |fs.Image()|
    ensures (val == DISK_ERROR && fs.faults > old(fs.faults)) || val == Entry(Fat16, fs.Image(), clst) < 0x1000_0000
    ensures DataKept(fs.g, old(fs.disk), old(fs.winsect), fs.disk, fs.winsect)
  {
    hide FatFs.FsInfoTold, FatFs.Valid, FatFs.Logical, FatFs.Image;
    EntryAddress(fs, clst);
    val := DISK_ERROR;
    var res := MoveToFatByte(fs, 2 * clst);
    if res != Ok { return; }
    val := LoadEntry16(fs, clst);
  }

  method GetFat32(fs: FatFs, clst: Dword) returns (val: Dword)
    requires fs.Valid() && fs.g.fsType == Fat32 && 2 <= clst < fs.g.nFatent
    modifies fs`disk, fs`wflag, fs`faults, fs`lostWrites, fs`winsect, fs.win
    ensures fs.Valid()
    ensures fs.Logical() == old(fs.Logical()) && fs.Image() == old(fs.Image())
    ensures old(fs.Log()).Onward(fs.Log())
    ensures Quiet(old(fs.Pending()), old(fs.disk), fs.Pending(), fs.disk)
    ensures EntryPos(Fat32, clst) + 4 <= |fs.Image()|
    ensures (val == DISK_ERROR && fs.faults > old(fs.faults)) || val == Entry(Fat32, fs.Image(), clst) < 0x1000_0000
    ensures DataKept(fs.g, old(fs.disk), old(fs.winsect), fs.disk, fs.winsect)
  {
    hide FatFs.FsInfoTold, FatFs.Valid, FatFs.Logical, FatFs.Image;
    EntryAddress(fs, clst);
    val := DISK_ERROR;
    var res := MoveToFatByte(fs, 4 * clst);
    if res != Ok { return; }
    val := LoadEntry32(fs, clst);
  }

  // ------------------------------------------------------- changing an entry

  method PutFat(fs: FatFs, clst: Dword, val: Dword) returns (res: FResult)
    requires fs.Valid()
    modifies fs`disk, fs`wflag, fs`faults, fs`lostWrites, fs`torn, fs`winsect, fs.win
    ensures fs.Valid()
    ensures old(fs.Log()).Onward(fs.Log())
    ensures clst < 2 || clst >= fs.g.nFatent ==> res == IntErr && fs.Logical() == old(fs.Logical()) && fs.Fat() == old(fs.Fat())
    ensures 2 <= clst < fs.g.nFatent ==> res == Ok || (res == DiskErr && fs.faults > old(fs.faults))
    ensures OutsideFatSame(fs.g, old(fs.Logical()), fs.Logical())
    ensures forall d :: 0 <= d < fs.g.nFatent && d != clst ==> fs.Fat()[d] == old(fs.Fat())[d]
    ensures res == Ok ==> fs.Fat() == old(fs.Fat())[clst := Truncated(fs.g.fsType, val)]
    // an entry is stored whole or not at all, but for one that lies across a sector boundary
    ensures res != Ok && fs.torn == old(fs.torn) ==> fs.Fat() == old(fs.Fat())
    ensures fs.torn != old(fs.torn) ==> res == DiskErr && Torn(fs.g.fsType, old(fs.Fat()), fs.Fat(), clst, val)
    ensures res == Ok ==> fs.Upper() == old(fs.Upper())
    ensures res == Ok ==> fs.g.InFat1(fs.winsect)
    ensures DataKept(fs.g, old(fs.disk), old(fs.winsect), fs.disk, fs.winsect)
  {
    hide FatFs.FsInfoTold, FatFs.Valid, FatFs.Logical, FatFs.Image;
    DiskBound(fs);
    res := IntErr;
    if clst < 2 || clst >= fs.g.nFatent {
      return;
    }
    EntryAddress(fs, clst);
    match fs.g.fsType {
      case Fat12 => res := PutFat12(fs, clst, val);
      case Fat16 => res := PutFat16(fs, clst, val);
      case Fat32 => res := PutFat32(fs, clst, val);
    }
    StoredTable(fs.g.fsType, fs.g.nFatent, old(fs.Image()), clst, val);
    if fs.g.fsType == Fat12 {
      HalfStoredTable(fs.g.nFatent, old(fs.Image()), clst, val);
    }
  }

  method PutFat12(fs: FatFs, clst: Dword, val: Dword) returns (res: FResult)
    requires fs.Valid() && fs.g.fsType == Fat12 && 2 <= clst < fs.g.nFatent
    modifies fs`disk, fs`wflag, fs`faults, fs`lostWrites, fs`torn, fs`winsect, fs.win
    ensures fs.Valid()
    ensures old(fs.Log()).Onward(fs.Log())
    ensures res == Ok || (res == DiskErr && fs.faults > old(fs.faults))
    ensures OutsideFatSame(fs.g, old(fs.Logical()), fs.Logical())
    ensures EntryPos(Fat12, clst) + 2 <= |fs.Image()| == |old(fs.Image())|
    ensures res == Ok ==> fs.Image() == Stored(Fat12, old(fs.Image()), clst, val)
    // failure stores nothing, or the first byte, which needs the second one to be in another sector
    ensures res != Ok && fs.torn == old(fs.torn) ==> fs.Image() == old(fs.Image())
    ensures fs.torn != old(fs.torn) ==> var p := EntryPos(Fat12, clst);
                          && res != Ok && Straddles(Fat12, clst)
                          && fs.Image() == old(fs.Image())[p := FirstByte12(old(fs.Image())[p], clst, val)]
    ensures res == Ok ==> fs.g.InFat1(fs.winsect)
    ensures DataKept(fs.g, old(fs.disk), old(fs.winsect), fs.disk, fs.winsect)
  {
    hide FatFs.FsInfoTold, FatFs.Valid, FatFs.Logical, FatFs.Image, FatFs.Fat, FirstByte12, SecondByte12, OutsideFatSame, DataKept;
    EntryAddress(fs, clst);
    DiskBound(fs);
    ghost var g, l, d, s := fs.g, fs.Logical(), fs.disk, fs.winsect;
    var bc := clst + clst / 2;
    res := PutByte12(fs, bc, clst, val, true);
    if res != Ok { return; }
    ghost var l1, d1, s1 := fs.Logical(), fs.disk, fs.winsect;
    res := PutByte12(fs, bc + 1, clst, val, false);
    if res != Ok {
      FirstStraddle(Fat12, clst);
      fs.torn := fs.torn + 1;
    }
    DataKeptTwice(g, d, s, d1, s1, fs.disk, fs.winsect);
    OutsideFatTwice(g, l, l1, fs.Logical());
  }

  /** One of the two bytes of a FAT12 entry: move the window there and put its share of val. */
  method PutByte12(fs: FatFs, i: nat, clst: Dword, val: Dword, first: bool) returns (res: FResult)
    requires fs.Valid() && i < 512 * fs.g.fsize
    modifies fs`disk, fs`wflag, fs`faults, fs`lostWrites, fs`winsect, fs.win
    ensures fs.Valid()
    ensures old(fs.Log()).Onward(fs.Log())
    ensures res == Ok || (res == DiskErr && fs.faults > old(fs.faults))
    ensures OutsideFatSame(fs.g, old(fs.Logical()), fs.Logical())
    ensures i < |old(fs.Image())|
    ensures fs.Image() == if res != Ok then old(fs.Image())
                          else old(fs.Image())[i := if first then FirstByte12(old(fs.Image())[i], clst, val)
                                                    else SecondByte12(old(fs.Image())[i], clst, val)]
    ensures res == Ok ==> fs.g.InFat1(fs.winsect) && fs.winsect == fs.g.fatbase + i / 512
    ensures old(fs.winsect) == fs.g.fatbase + i / 512 ==> res == Ok
    ensures DataKept(fs.g, old(fs.disk), old(fs.winsect), fs.disk, fs.winsect)
  {
    hide FatFs.FsInfoTold, FatFs.Valid, FatFs.Logical, FatFs.Image, FatFs.Fat, FirstByte12, SecondByte12, OutsideFatSame, DataKept;
    DiskBound(fs);
    EntryAddress(fs, 0);
    OutsideFatMoved(fs.g, fs.Logical());
    res := MoveToFatByte(fs, i);
    if res != Ok { return; }
    var b := LoadFatByte(fs, i);
    StoreFatByte(fs, i, if first then FirstByte12(b, clst, val) else SecondByte12(b, clst, val));
  }

  method PutFat16(fs: FatFs, clst: Dword, val: Dword) returns (res: FResult)
    requires fs.Valid() && fs.g.fsType == Fat16 && 2 <= clst < fs.g.nFatent
    modifies fs`disk, fs`wflag, fs`faults, fs`lostWrites, fs`winsect, fs.win
    ensures fs.Valid()
    ensures old(fs.Log()).Onward(fs.Log())
    ensures res == Ok || (res == DiskErr && fs.faults > old(fs.faults))
    ensures OutsideFatSame(fs.g, old(fs.Logical()), fs.Logical())
    ensures EntryPos(Fat16, clst) + 2 <= |fs.Image()| == |old(fs.Image())|
    ensures fs.Image() == if res == Ok then Stored(Fat16, old(fs.Image()), clst, val) else old(fs.Image())
    ensures res == Ok ==> fs.g.InFat1(fs.winsect)
    ensures DataKept(fs.g, old(fs.disk), old(fs.winsect), fs.disk, fs.winsect)
  {
    hide FatFs.FsInfoTold, FatFs.Valid, FatFs.Logical, FatFs.Image, ByteOf, OutsideFatSame, DataKept;
    EntryAddress(fs, clst);
    DiskBound(fs);
    HalfWordInSector(clst);
    ghost var g, l := fs.g, fs.Logical();
    OutsideFatMoved(g, l);
    var p := 2 * clst;
    res := MoveToFatByte(fs, p);
    if res != Ok { return; }
    StoreFatByte(fs, p, ByteOf(val, 0));
    ghost var l1 := fs.Logical();
    StoreFatByte(fs, p + 1, ByteOf(val, 1));
    OutsideFatTwice(g, l, l1, fs.Logical());
  }

  method PutFat32(fs: FatFs, clst: Dword, val: Dword) returns (res: FResult)
    requires fs.Valid() && fs.g.fsType == Fat32 && 2 <= clst < fs.g.nFatent
    modifies fs`disk, fs`wflag, fs`faults, fs`lostWrites, fs`winsect, fs.win
    ensures fs.Valid()
    ensures old(fs.Log()).Onward(fs.Log())
    ensures res == Ok || (res == DiskErr && fs.faults > old(fs.faults))
    ensures OutsideFatSame(fs.g, old(fs.Logical()), fs.Logical())
    ensures EntryPos(Fat32, clst) + 4 <= |fs.Image()| == |old(fs.Image())|
    ensures fs.Image() == if res == Ok then Stored(Fat32, old(fs.Image()), clst, val) else old(fs.Image())
    ensures res == Ok ==> fs.g.InFat1(fs.winsect)
    ensures DataKept(fs.g, old(fs.disk), old(fs.winsect), fs.disk, fs.winsect)
  {
    hide FatFs.FsInfoTold, FatFs.Valid, FatFs.Logical, FatFs.Image, FatFs.Fat, MergedWord, ByteOf, OutsideFatSame, DataKept;
    EntryAddress(fs, clst);
    DiskBound(fs);
    WordInSector(clst);
    OutsideFatMoved(fs.g, fs.Logical());
    var p := 4 * clst;
    res := MoveToFatByte(fs, p);
    if res != Ok { return; }
    var top := LoadFatByte(fs, p + 3);
    StoreFatWord(fs, clst, MergedWord(val, top));
  }

  /** st_32 at the FAT32 entry c in the window. */
  method StoreFatWord(fs: FatFs, c: nat, w: Dword)
    requires fs.Valid() && fs.g.fsType == Fat32 && c < fs.g.nFatent && fs.winsect == fs.g.fatbase + 4 * c / 512
    modifies fs`wflag, fs.win
    ensures fs.Valid()
    ensures OutsideFatSame(fs.g, old(fs.Logical()), fs.Logical())
    ensures 4 * c + 4 <= |old(fs.Image())|
    ensures fs.Image() == old(fs.Image())[4 * c := ByteOf(w, 0)][4 * c + 1 := ByteOf(w, 1)]
                            [4 * c + 2 := ByteOf(w, 2)][4 * c + 3 := ByteOf(w, 3)]
  {
    hide FatFs.FsInfoTold, FatFs.Valid, FatFs.Logical, FatFs.Image, FatFs.Fat, ByteOf, OutsideFatSame;
    EntryAddress(fs, c);
    DiskBound(fs);
    WordInSector(c);
    ghost var g, l := fs.g, fs.Logical();
    StoreFatByte(fs, 4 * c, ByteOf(w, 0));
    ghost var l1 := fs.Logical();
    StoreFatByte(fs, 4 * c + 1, ByteOf(w, 1));
    ghost var l2 := fs.Logical();
    StoreFatByte(fs, 4 * c + 2, ByteOf(w, 2));
    ghost var l3 := fs.Logical();
    StoreFatByte(fs, 4 * c + 3, ByteOf(w, 3));
    OutsideFatTwice(g, l, l1, l2);
    OutsideFatTwice(g, l, l2, l3);
    OutsideFatTwice(g, l, l3, fs.Logical());
  }
}
