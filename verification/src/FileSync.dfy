/**
 Making a file durable (ff.c, sync_fs, f_sync): the dirty buffer, the directory entry,
 the window and the FSInfo sector reach the device.
 */
module FileSync {
  import opened Bytes
  import opened Volume
  import opened Window
  import opened FatEntries
  import opened Chains
  import opened Allocation
  import opened FatRuns
  import opened Layout
  import opened FileState
  import opened FileRead
  import opened FileWrite
  import opened FileTruncate

  // ------------------------------------------------------------- stores into the window

  /** t is s except in the n bytes from o on. */
  ghost predicate OnlyBytes(s: Sector, t: Sector, o: nat, n: nat) {
    forall i :: 0 <= i < 512 && !(o <= i < o + n) ==> t[i] == s[i]
  }

  method StWin32(fs: FatFs, o: nat, v: Dword)
    requires fs.win.Length == 512 && o + 4 <= 512
    modifies fs.win
    ensures Word32(fs.win[..], o) == v && OnlyBytes(old(fs.win[..]), fs.win[..], o, 4)
  {
    hide Ld32, ByteOf;
    StoreLoad32(v);
    fs.win[o], fs.win[o + 1], fs.win[o + 2], fs.win[o + 3] := ByteOf(v, 0), ByteOf(v, 1), ByteOf(v, 2), ByteOf(v, 3);
  }

  method StWin16(fs: FatFs, o: nat, v: Dword)
    requires fs.win.Length == 512 && o + 2 <= 512
    modifies fs.win
    ensures Word16(fs.win[..], o) == v % 0x1_0000 && OnlyBytes(old(fs.win[..]), fs.win[..], o, 2)
  {
    hide Ld16, ByteOf;
    StoreLoad32(v);
    fs.win[o], fs.win[o + 1] := ByteOf(v, 0), ByteOf(v, 1);
  }

  // ------------------------------------------------------------- sync_fs

  /** The FSInfo sector as sync_fs makes it. */
  ghost predicate IsFsInfo(s: Sector, free: Dword, next: Dword) {
    Tells(s, free, next) && forall i :: 4 <= i < 484 || 496 <= i < 508 ==> s[i] == 0
  }

  lemma FsInfoTells(s: Sector, free: Dword, next: Dword)
    requires IsFsInfo(s, free, next)
    ensures Tells(s, free, next)
  {
  }

  method FillFsInfo(fs: FatFs)
    requires fs.win.Length == 512
    modifies fs.win
    ensures IsFsInfo(fs.win[..], fs.freeClst, fs.lastClst)
  {
    hide Ld32;
    forall i | 0 <= i < 512 {
      fs.win[i] := 0;
    }
    assert forall i :: 0 <= i < 512 ==> fs.win[..][i] == 0;
    StWin32(fs, 0, 0x4161_5252);
    StWin32(fs, 484, 0x6141_7272);
    StWin32(fs, 488, fs.freeClst);
    StWin32(fs, 492, fs.lastClst);
    StWin32(fs, 508, 0xAA55_0000);
  }

  /** What sync_fs may change on the device: the flushed window, the mirror, and FSInfo. */
  ghost predicate OnlySynced(fs: FatFs, disk: seq<Sector>, wflag: bool, winsect: nat)
    reads fs`disk
  {
    && |fs.disk| == |disk|
    && forall s :: 0 <= s < |disk| && !fs.g.InFat2(s) && !fs.FsInfo(s) && !(wflag && s == winsect) ==> fs.disk[s] == disk[s]
  }

  /** Write the FSInfo sector through the window; the result of the write is not looked at. */
  method WriteFsInfo(fs: FatFs)
    requires fs.Valid() && !fs.wflag && fs.g.fsType == Fat32
    modifies fs`disk, fs`faults, fs`lostWrites, fs`winsect, fs.win
    ensures fs.Valid() && !fs.wflag && fs.Fat() == old(fs.Fat())
    ensures old(fs.Log()).Onward(fs.Log())
    ensures OnlySynced(fs, old(fs.disk), false, old(fs.winsect))
    ensures forall s :: fs.g.fatbase <= s < |fs.disk| ==> fs.Logical()[s] == old(fs.Logical()[s])
    ensures fs.winsect == fs.g.volbase + 1 < fs.g.fatbase && fs.winsect < |fs.disk|
    ensures fs.faults == old(fs.faults) ==> IsFsInfo(fs.disk[fs.winsect], fs.freeClst, fs.lastClst)
    // on a read-only device a clean window is left that differs from its sector, unless that was up to date
    ensures fs.refuses ==>
              && fs.disk == old(fs.disk)
              && (fs.win[..] == fs.disk[fs.winsect] ==> IsFsInfo(fs.disk[fs.winsect], fs.freeClst, fs.lastClst))
  {
    hide IsFsInfo, Tells, Mirrored, PowerOfTwo, Geometry.ClusterBase, Table;
    ghost var disk := fs.disk;
    FatInsideDisk(fs.g);
    FillFsInfo(fs);
    FsInfoTells(fs.win[..], fs.freeClst, fs.lastClst);
    fs.winsect := fs.g.volbase + 1;
    var ok := DiskWrite(fs, fs.win, 0, fs.winsect, 1);
    assert ok ==> fs.disk[fs.winsect] == fs.win[..] by {
      assert fs.win[0..512] == fs.win[..];
    }
    OutsideFats(fs.g, disk, old(fs.winsect), old(fs.win[..]), fs.disk, fs.winsect, fs.win[..]);
  }

  /** Writing one sector in front of the FATs with the window clean. */
  lemma OutsideFats(g: Geometry, disk: seq<Sector>, w: nat, win: Sector, disk': seq<Sector>, w': nat, win': Sector)
    requires g.Valid() && g.fatbase + g.fsize <= |disk| == |disk'| && w' < g.fatbase
    requires forall s :: 0 <= s < |disk| && s != w' ==> disk'[s] == disk[s]
    ensures FatImage(g, LogicalDisk(g, disk', false, w', win')) == FatImage(g, LogicalDisk(g, disk, false, w, win))
    ensures forall s :: 0 <= s < |disk| && s != w' ==> LogicalDisk(g, disk', false, w', win')[s] == LogicalDisk(g, disk, false, w, win)[s]
    ensures Mirrored(g, disk, false, w) ==> Mirrored(g, disk', false, w')
  {
    SameFatSectors(g, LogicalDisk(g, disk, false, w, win), LogicalDisk(g, disk', false, w', win'), g.fsize);
  }

  /** CTRL_SYNC: the card reports whether its pending writes are done. */
  method DiskIoctlSync(fs: FatFs) returns (ok: bool)
    requires fs.Valid()
    modifies fs`faults
    ensures fs.Valid() && fs.Fat() == old(fs.Fat()) && old(fs.Log()).Onward(fs.Log())
    ensures fs.faults == old(fs.faults) + if ok then 0 else 1
  {
    ok := *;
    fs.faults := fs.faults + if ok then 0 else 1;
  }

  /** "if (fsi_flag == 1)": FSInfo is written if the allocation has changed. */
  method SyncInfo(fs: FatFs)
    requires fs.Valid() && !fs.wflag
    modifies fs`disk, fs`faults, fs`lostWrites, fs`winsect, fs.win, fs`fsiFlag
    ensures fs.Valid() && !fs.Pending() && fs.Fat() == old(fs.Fat())
    ensures old(fs.Log()).Onward(fs.Log()) && (old(fs.fsiFlag) != 1 ==> fs.faults == old(fs.faults))
    ensures OnlySynced(fs, old(fs.disk), false, old(fs.winsect))
    ensures forall s :: fs.g.fatbase <= s < |fs.disk| ==> fs.Logical()[s] == old(fs.Logical()[s])
    ensures fs.winsect == old(fs.winsect) || fs.winsect < fs.g.fatbase
    ensures fs.refuses ==> fs.disk == old(fs.disk)
    ensures fs.g.fsType == Fat32 && old(fs.fsiFlag) == 1 && fs.faults == old(fs.faults) ==>
              fs.g.volbase + 1 < |fs.disk| && IsFsInfo(fs.disk[fs.g.volbase + 1], fs.freeClst, fs.lastClst)
  {
    hide FatFs.Valid, FatFs.Fat, FatFs.Logical, IsFsInfo, Tells;
    if fs.fsiFlag == 1 {
      fs.fsiFlag := 0;
      if fs.g.fsType == Fat32 {
        WriteFsInfo(fs);
        if fs.faults == old(fs.faults) { FsInfoTells(fs.disk[fs.winsect], fs.freeClst, fs.lastClst); }
      }
    }
  }

  method SyncFs(fs: FatFs) returns (res: FResult)
    requires fs.Valid()
    modifies fs`disk, fs`wflag, fs`faults, fs`lostWrites, fs`winsect, fs.win, fs`fsiFlag
    ensures fs.Valid() && fs.Fat() == old(fs.Fat())
    ensures old(fs.Log()).Onward(fs.Log())
    ensures res == Ok || (res == DiskErr && fs.faults > old(fs.faults))
    ensures res == Ok ==> !fs.Pending()
    // writes to the second FAT and to FSInfo are not checked, the synchronization is
    ensures !old(fs.Pending()) ==> fs.faults == old(fs.faults) + (if res == Ok then 0 else 1)
    ensures old(fs.wflag) && fs.refuses ==> res != Ok && fs.wflag
    ensures fs.refuses ==> fs.disk == old(fs.disk) && (old(fs.wflag) ==> fs.faults == old(fs.faults) + 1)
    ensures |fs.disk| == |old(fs.disk)| && forall s :: fs.g.fatbase <= s < |fs.disk| ==> fs.Logical()[s] == old(fs.Logical()[s])
    ensures OnlySynced(fs, old(fs.disk), old(fs.wflag), old(fs.winsect))
    ensures fs.winsect == old(fs.winsect) || fs.winsect < fs.g.fatbase
    ensures res == Ok && old(fs.wflag) && !fs.FsInfo(old(fs.winsect)) ==>
              old(fs.winsect) < |fs.disk| && fs.disk[old(fs.winsect)] == old(fs.win[..])
    ensures res == Ok && fs.g.fsType == Fat32 && old(fs.fsiFlag) == 1 && fs.faults == old(fs.faults) ==>
              fs.g.volbase + 1 < |fs.disk| && IsFsInfo(fs.disk[fs.g.volbase + 1], fs.freeClst, fs.lastClst)
  {
    hide FatFs.FsInfoTold, FatFs.Valid, FatFs.Fat, FatFs.Logical, IsFsInfo;
    res := FlushWindow(fs);
    if res == Ok {
      SyncInfo(fs);
      var ok := DiskIoctlSync(fs);
      if !ok { res := DiskErr; }
    }
  }

  /** sync_window, with what a success means for the flushed sector. */
  method FlushWindow(fs: FatFs) returns (res: FResult)
    requires fs.Valid()
    modifies fs`disk, fs`wflag, fs`faults, fs`lostWrites
    ensures fs.Valid() && fs.Fat() == old(fs.Fat())
    ensures old(fs.Log()).Onward(fs.Log())
    ensures res == Ok || (res == DiskErr && fs.faults > old(fs.faults))
    ensures res == Ok ==> !fs.wflag
    ensures !old(fs.wflag) ==> res == Ok && fs.faults == old(fs.faults)
    ensures old(fs.wflag) && fs.refuses ==> res != Ok && fs.wflag
    ensures fs.refuses ==> fs.disk == old(fs.disk) && fs.faults == old(fs.faults) + (if res == Ok then 0 else 1)
    ensures fs.Logical() == old(fs.Logical())
    ensures OnlySynced(fs, old(fs.disk), old(fs.wflag), fs.winsect)
    ensures old(fs.wflag) ==> !fs.g.InFat2(fs.winsect) && fs.winsect < |fs.disk|
    ensures res == Ok && old(fs.wflag) && !fs.FsInfo(fs.winsect) ==> fs.disk[fs.winsect] == fs.win[..]
  {
    res := SyncWindow(fs);
  }

  // ------------------------------------------------------------- the directory entry

  /** The archive attribute is set. */
  function SetBit5(b: Byte): Byte {
    if b / 32 % 2 == 0 then b + 32 else b
  }

  /** The entry at offset o of sector s, updated from sector was. */
  ghost predicate IsEntry(was: Sector, s: Sector, t: FsType, o: nat, sclust: Dword, size: Dword, now: Dword)
    requires o + 32 <= 512
  {
    && OnlyBytes(was, s, o, 32) && (forall i :: o <= i < o + 11 ==> s[i] == was[i])
    && s[o + 11] == SetBit5(was[o + 11])
    && Word16(s, o + 18) == 0 && Word32(s, o + 22) == now
    && Word16(s, o + 26) == sclust % 0x1_0000 && (t == Fat32 ==> Word16(s, o + 20) == sclust / 0x1_0000)
    && Word32(s, o + 28) == size
  }

  /** ld_clust: the start cluster an entry names. */
  function LdClust(t: FsType, s: Sector, o: nat): Dword
    requires o + 32 <= 512
  {
    Word16(s, o + 26) + if t == Fat32 then 0x1_0000 * Word16(s, o + 20) else 0
  }

  /** What was stored is what an open reads: the start cluster and the size. */
  lemma EntryRoundTrip(was: Sector, s: Sector, t: FsType, o: nat, sclust: Dword, size: Dword, now: Dword)
    requires o + 32 <= 512 && IsEntry(was, s, t, o, sclust, size, now)
    ensures t == Fat32 || sclust < 0x1_0000 ==> LdClust(t, s, o) == sclust
    ensures Word32(s, o + 28) == size
  {
    assert sclust == 0x1_0000 * (sclust / 0x1_0000) + sclust % 0x1_0000;
  }

  method FillEntry(fs: FatFs, o: nat, sclust: Dword, size: Dword, now: Dword)
    requires fs.win.Length == 512 && o + 32 <= 512
    modifies fs.win
    ensures IsEntry(old(fs.win[..]), fs.win[..], fs.g.fsType, o, sclust, size, now)
  {
    hide Ld16, Ld32;
    fs.win[o + 11] := SetBit5(fs.win[o + 11]);
    StWin16(fs, o + 26, sclust % 0x1_0000);
    if fs.g.fsType == Fat32 {
      StWin16(fs, o + 20, sclust / 0x1_0000);
    }
    StWin32(fs, o + 28, size);
    StWin32(fs, o + 22, now);
    StWin16(fs, o + 18, 0);
  }

  method UpdateEntry(fs: FatFs, o: nat, sclust: Dword, size: Dword, now: Dword)
    requires fs.Valid() && o + 32 <= 512
    requires fs.g.fatbase + fs.g.FatArea() <= fs.winsect < |fs.disk|
    modifies fs.win, fs`wflag
    ensures fs.Valid() && fs.wflag && fs.Fat() == old(fs.Fat())
    ensures forall s :: 0 <= s < |fs.disk| && s != fs.winsect ==> fs.Logical()[s] == old(fs.Logical()[s])
    ensures IsEntry(old(fs.win[..]), fs.win[..], fs.g.fsType, o, sclust, size, now)
  {
    hide IsEntry;
    ghost var l, w := fs.Logical(), fs.win[..];
    FatInsideDisk(fs.g);
    FillEntry(fs, o, sclust, size, now);
    fs.wflag := true;
    WindowUpdate(fs.g, fs.disk, old(fs.wflag), fs.winsect, w, fs.win[..]);
    SameFatSectors(fs.g, l, fs.Logical(), fs.g.fsize);
  }

  // ------------------------------------------------------------- f_sync

  /** Between the old and the new device only these data sectors may differ. */
  ghost predicate EntrySynced(g: Geometry, d: Dev, d': Dev, dirSect: nat) {
    && d'.fat == d.fat && |d'.disk| == |d.disk| <= 0xFFFF_FFFF
    && (forall s :: g.database <= s < |d.disk| && s != d.winsect && s != dirSect ==> d'.disk[s] == d.disk[s])
    && (d'.winsect == d.winsect || d'.winsect == dirSect || AwayFromData(g, d'.winsect))
    && d.log.Onward(d'.log) && |d'.view| == |d.view|
    && (forall s :: g.fatbase + g.FatArea() <= s < |d.view| && s != dirSect ==> d'.view[s] == d.view[s])
  }

  /** Updating the directory entry does not touch the file. */
  lemma EntryApart(g: Geometry, d: Dev, d': Dev, f: FileView)
    requires Laid(g, d, f) && Clean(g, d, f) && EntrySynced(g, d, d', f.dirSect)
    ensures Laid(g, d', f) && Clean(g, d', f) && BytesOf(g, d', f) == BytesOf(g, d, f)
  {
    hide Sectors, Run, IsChain, PowerOfTwo;
    FileSectors(g, d, f);
    FileSectors(g, d', f);
    var s := Sectors(g, f.chain);
    forall k | 0 <= k < |s| ensures d'.disk[s[k]] == d.disk[s[k]] {
      assert g.database <= s[k] < |d.disk| && s[k] != d.winsect && s[k] != f.dirSect;
    }
    SameView(d.disk, s, f.dirty, f.sect, f.buf, d'.disk, s, f.dirty, f.sect, f.buf, f.objsize);
  }

  /** The device alone holds the file: its links, its bytes, and an entry naming them. */
  ghost predicate Durable(fp: File, now: Dword)
    requires fp.Placed()
    reads fp, fp.buf, fp.fs, fp.fs.win
  {
    && !fp.Pending()
    && fp.fs.g.fatbase + fp.fs.g.fsize <= |fp.fs.disk|
    && FatImage(fp.fs.g, fp.fs.disk) == fp.fs.Image()
    && Between(Sectors(fp.fs.g, fp.chain), 0, |fp.fs.disk|)
    && fp.objsize <= 512 * |Sectors(fp.fs.g, fp.chain)|
    && Content(fp.fs.disk, Sectors(fp.fs.g, fp.chain), false, 0, ZERO_SECTOR, fp.objsize) == fp.Data()
    && exists was :: IsEntry(was, fp.fs.disk[fp.dirSect], fp.fs.g.fsType, fp.dirOfs, fp.sclust, fp.objsize, now)
  }

  ghost predicate OnDevice(fp: File)
    requires fp.Placed()
    reads fp, fp.buf, fp.fs, fp.fs.win
  {
    exists now: Dword :: Durable(fp, now)
  }

  /** Some entry for this cluster and size is in the sector. */
  ghost predicate Listed(s: Sector, t: FsType, o: nat, sclust: Dword, size: Dword)
    requires o + 32 <= 512
  {
    exists now: Dword, was :: IsEntry(was, s, t, o, sclust, size, now)
  }

  lemma OnDeviceIff(fp: File)
    requires fp.Placed()
    ensures OnDevice(fp) <==> !fp.Pending() && Listed(fp.fs.disk[fp.dirSect], fp.fs.g.fsType, fp.dirOfs, fp.sclust, fp.objsize)
  {
    hide IsEntry, Laid, FatFs.Valid, Sectors;
    if !fp.Pending() {
      forall now: Dword, was | IsEntry(was, fp.fs.disk[fp.dirSect], fp.fs.g.fsType, fp.dirOfs, fp.sclust, fp.objsize, now)
        ensures Durable(fp, now)
      {
        FlushedIsDurable(fp, now, was);
      }
    }
  }

  lemma HeadOf(fp: File)
    requires fp.Placed()
    ensures fp.sclust == if fp.chain == [] then 0 else fp.chain[0]
  {
  }

  /** The device holds the file, or the flag says that it does not. */
  ghost predicate Accounted(fp: File)
    requires fp.Placed()
    reads fp, fp.buf, fp.fs, fp.fs.win
  {
    fp.modified || OnDevice(fp)
  }

  lemma DirtyNotOnDevice(fp: File)
    requires fp.Placed() && fp.dirty
    ensures !OnDevice(fp)
  {
  }

  /** f is a file just opened at the entry at offset o of sector s. */
  ghost predicate IsOpened(t: FsType, s: Sector, o: nat, f: FileView)
    requires o + 32 <= 512
  {
    f.fptr == f.clust == f.sect == 0 && !f.dirty && f.sclust == LdClust(t, s, o) && f.objsize == Word32(s, o + 28)
  }

  lemma EntryShown(fs: FatFs, sect: Dword)
    requires fs.Valid() && fs.g.fatbase + fs.g.FatArea() <= sect < |fs.disk|
    ensures fs.win.Length == 512 && !fs.g.InFat2(sect) && !fs.FsInfo(sect) && (!fs.wflag ==> fs.Logical()[sect] == fs.disk[sect])
    ensures |fs.disk| <= 0xFFFF_FFFF && forall s :: fs.g.database <= s ==> !fs.g.InFat2(s)
  {
  }

  /**
   The end of f_open, for a file found at this entry: the object is made from the start cluster and the
   size in the window, and reads the bytes they lead to.
   */
  method OpenEntry(fs: FatFs, dirSect: Dword, dirOfs: nat, read: bool, write: bool, ghost f: FileView)
    returns (res: FResult, fp: File?)
    requires fs.Valid() && dirOfs + 32 <= 512 && fs.g.fatbase + fs.g.FatArea() <= dirSect < |fs.disk|
    requires f.dirSect == dirSect && f.buf == ZERO_SECTOR && Laid(fs.g, DevOf(fs), f)
    requires IsOpened(fs.g.fsType, fs.Logical()[dirSect], dirOfs, f)
    modifies fs`disk, fs`wflag, fs`faults, fs`lostWrites, fs`winsect, fs.win
    ensures fs.Valid() && fs.Fat() == old(fs.Fat()) && old(fs.Log()).Onward(fs.Log())
    ensures res == Ok || (res == DiskErr && fs.faults > old(fs.faults))
    ensures res == Ok ==> fp != null && fresh(fp) && fresh(fp.buf) && fp.fs == fs && fp.canRead == read && fp.canWrite == write
    ensures res == Ok ==> fp.Inv() && fp.Placed() && fp.err == Ok
    ensures res == Ok ==> fp.View() == f && fp.Data() == old(BytesOf(fs.g, DevOf(fs), f))
  {
    hide FatFs.FsInfoTold, FatFs.Valid, FatFs.Fat, FatFs.Logical, FatFs.Image, Laid, BytesOf, LdClust, Word32;
    EntryShown(fs, dirSect);
    ghost var d := DevOf(fs);
    res := MoveToEntry(fs, dirSect);
    fp := null;
    if res == Ok {
      EntryApart(fs.g, d, DevOf(fs), f);
      var t, s := fs.g.fsType, fs.win[..];
      fp := new File(fs, read, write, dirSect, dirOfs, LdClust(t, s, dirOfs), Word32(s, dirOfs + 28), f.chain);
    }
  }

  lemma FlushedIsDurable(fp: File, now: Dword, was: Sector)
    requires fp.Placed() && !fp.Pending()
    requires IsEntry(was, fp.fs.disk[fp.dirSect], fp.fs.g.fsType, fp.dirOfs, fp.sclust, fp.objsize, now)
    ensures Durable(fp, now)
  {
    hide Sectors, IsChain, PowerOfTwo, Run, IsEntry, DirPlaced;
    var g, d, f := fp.fs.g, DevOf(fp.fs), fp.View();
    FatInsideDisk(g);
    SameFatSectors(g, fp.fs.Logical(), fp.fs.disk, g.fsize);
    FileSectors(g, d, f);
    SameView(d.disk, Sectors(g, f.chain), false, f.sect, f.buf, d.disk, Sectors(g, f.chain), false, 0, ZERO_SECTOR, f.objsize);
  }

  /** The entry is brought into the window and updated there. */
  method PutEntry(fp: File, now: Dword) returns (res: FResult, ghost was: Sector)
    requires fp.Shaped()
    modifies fp.fs`disk, fp.fs`wflag, fp.fs`faults, fp.fs`lostWrites, fp.fs`winsect, fp.fs.win
    ensures fp.fs.Valid() && old(fp.fs.Log()).Onward(fp.fs.Log())
    ensures fp.fs.Fat() == old(fp.fs.Fat()) && |fp.fs.disk| == |old(fp.fs.disk)|
    ensures fp.fs.refuses ==> fp.fs.disk == old(fp.fs.disk) && fp.fs.faults == old(fp.fs.faults) + (if res == Ok then 0 else 1)
    ensures EntrySynced(fp.fs.g, old(DevOf(fp.fs)), DevOf(fp.fs), fp.dirSect)
    ensures res == Ok || (res == DiskErr && fp.fs.faults > old(fp.fs.faults))
    ensures old(fp.fs.winsect) == fp.dirSect ==> res == Ok
    ensures res == Ok ==> fp.fs.wflag && fp.fs.winsect == fp.dirSect
    ensures res == Ok ==> IsEntry(was, fp.fs.win[..], fp.fs.g.fsType, fp.dirOfs, fp.sclust, fp.objsize, now)
  {
    hide FatFs.FsInfoTold, FatFs.Valid, FatFs.Fat, FatFs.Logical, FatFs.Image, IsEntry;
    SyncGeometry(fp);
    was := ZERO_SECTOR;
    res := MoveToEntry(fp.fs, fp.dirSect);
    if res == Ok {
      was := fp.fs.win[..];
      UpdateEntry(fp.fs, fp.dirOfs, fp.sclust, fp.objsize, now);
    }
  }

  /** "update the directory entry": window, entry, sync_fs. FA_MODIFIED is cleared even if sync_fs fails. */
  method SyncEntry(fp: File, now: Dword) returns (res: FResult, ghost was: Sector)
    requires fp.Shaped()
    modifies fp`modified, fp.fs`disk, fp.fs`wflag, fp.fs`faults, fp.fs`lostWrites, fp.fs`winsect, fp.fs.win, fp.fs`fsiFlag
    ensures fp.fs.Valid() && old(fp.fs.Log()).Onward(fp.fs.Log())
    ensures fp.fs.Fat() == old(fp.fs.Fat()) && |fp.fs.disk| == |old(fp.fs.disk)|
    ensures fp.fs.refuses ==> fp.fs.disk == old(fp.fs.disk) && fp.fs.faults == old(fp.fs.faults) + 1
    ensures EntrySynced(fp.fs.g, old(DevOf(fp.fs)), DevOf(fp.fs), fp.dirSect)
    ensures res == Ok || (res == DiskErr && fp.fs.faults > old(fp.fs.faults))
    // the flag is cleared once sync_fs has been called, whatever that returned
    ensures fp.modified ==> res != Ok && fp.modified == old(fp.modified)
    ensures fp.fs.refuses && old(fp.fs.winsect) == fp.dirSect ==> !fp.modified && fp.fs.wflag
    ensures fp.fs.refuses ==> res != Ok
    ensures res == Ok ==> !fp.modified && !fp.fs.Pending()
    ensures res == Ok && fp.fs.g.fsType == Fat32 && old(fp.fs.fsiFlag) == 1 && fp.fs.faults == old(fp.fs.faults) ==>
              fp.fs.g.volbase + 1 < |fp.fs.disk| && IsFsInfo(fp.fs.disk[fp.fs.g.volbase + 1], fp.fs.freeClst, fp.fs.lastClst)
    ensures res == Ok ==> IsEntry(was, fp.fs.disk[fp.dirSect], fp.fs.g.fsType, fp.dirOfs, fp.sclust, fp.objsize, now)
  {
    hide FatFs.Pending, FatFs.FsInfoTold, FatFs.Valid, FatFs.Fat, FatFs.Logical, FatFs.Image, IsEntry, IsFsInfo;
    ghost var g, d, fs := fp.fs.g, DevOf(fp.fs), fp.fs;
    SyncGeometry(fp);
    res, was := PutEntry(fp, now);
    ghost var d1, entry := DevOf(fp.fs), fs.win[..];
    if res == Ok {
      res := SyncFs(fp.fs);
      fp.modified := false;
      EntryThenSynced(fs, d, d1, fp.dirSect);
      assert res == Ok ==> fs.disk[fp.dirSect] == entry;
    }
  }

  lemma EntryThenSynced(fs: FatFs, d: Dev, d1: Dev, dirSect: nat)
    requires fs.Valid() && EntrySynced(fs.g, d, d1, dirSect) && d1.winsect == dirSect && OnlySynced(fs, d1.disk, true, dirSect)
    requires fs.Fat() == d1.fat && d1.log.Onward(fs.Log()) && |d1.view| == |d1.disk|
    requires fs.g.fatbase + fs.g.FatArea() <= fs.g.database && fs.g.volbase < fs.g.fatbase
    requires forall s :: fs.g.database <= s ==> !fs.g.InFat2(s) && !fs.FsInfo(s)
    requires forall s :: fs.g.fatbase <= s < |fs.disk| ==> fs.Logical()[s] == d1.view[s]
    requires fs.winsect == dirSect || fs.winsect < fs.g.fatbase
    ensures EntrySynced(fs.g, d, DevOf(fs), dirSect)
  {
    hide FatFs.Valid, FatFs.Fat, FatFs.Logical, FatFs.FsInfoTold;
  }

  lemma SyncGeometry(fp: File)
    requires fp.Shaped()
    ensures fp.fs.g.volbase < fp.fs.g.fatbase && fp.fs.g.fatbase + fp.fs.g.FatArea() <= fp.fs.g.database
    ensures !fp.fs.g.InFat2(fp.dirSect) && !fp.fs.FsInfo(fp.dirSect) && |fp.fs.disk| <= 0xFFFF_FFFF
    ensures forall s :: fp.fs.g.database <= s ==> !fp.fs.g.InFat2(s) && !fp.fs.FsInfo(s)
  {
  }

  /** move_window to the sector of the entry. */
  method MoveToEntry(fs: FatFs, sect: Dword) returns (res: FResult)
    requires fs.Valid() && fs.g.fatbase + fs.g.FatArea() <= sect < |fs.disk|
    modifies fs`disk, fs`wflag, fs`faults, fs`lostWrites, fs`winsect, fs.win
    ensures fs.Valid() && fs.Fat() == old(fs.Fat()) && old(fs.Log()).Onward(fs.Log())
    ensures res == Ok || (res == DiskErr && fs.faults > old(fs.faults))
    ensures res == Ok ==> fs.winsect == sect && fs.win[..] == old(fs.Logical()[sect])
    ensures sect == old(fs.winsect) ==> res == Ok
    ensures fs.winsect == old(fs.winsect) || fs.winsect == sect || fs.winsect == 0xFFFF_FFFF
    ensures |fs.disk| == |old(fs.disk)| && fs.Logical() == old(fs.Logical()) && (fs.refuses ==> fs.disk == old(fs.disk))
    ensures fs.refuses ==> fs.faults == old(fs.faults) + (if res == Ok then 0 else 1)
    ensures forall s :: 0 <= s < |fs.disk| && !fs.g.InFat2(s) && s != old(fs.winsect) ==> fs.disk[s] == old(fs.disk[s])
  {
    res := MoveWindow(fs, sect);
  }

  /** "write back the dirty buffer", on a file that may have been aborted. */
  method FlushForSync(fp: File) returns (ok: bool)
    requires fp.Inv()
    modifies fp`dirty, fp.fs`disk, fp.fs`faults, fp.fs`lostWrites
    ensures fp.Inv() && old(fp.fs.Log()).Onward(fp.fs.Log()) && fp.fs.Fat() == old(fp.fs.Fat())
    ensures fp.err == Ok ==> fp.Placed() && fp.Data() == old(fp.Data())
    ensures fp.err == Ok ==> OthersBut(fp.fs.g, old(DevOf(fp.fs)), fp.chain, DevOf(fp.fs), fp.chain, fp.dirSect)
    ensures fp.fs.faults == old(fp.fs.faults) + (if ok then 0 else 1)
    ensures if ok then !fp.dirty else old(fp.dirty) && fp.dirty
    ensures fp.fs.refuses ==> fp.fs.disk == old(fp.fs.disk) && (old(fp.dirty) ==> !ok)
  {
    hide FatFs.FsInfoTold, FatFs.Valid, FatFs.Fat, FatFs.Logical, FatFs.Image, Laid, Clean, Sectors, BytesOf, Cursor, OthersBut,
         OthersKept, OnlySector, DirPlaced;
    ghost var g, d, f := fp.fs.g, DevOf(fp.fs), fp.View();
    if fp.err == Ok { FileFacts(fp); }
    ok := WriteBack(fp);
    if fp.err == Ok {
      BackWritten(fp, d, f, ok);
      BackWrittenOthers(g, d, f, DevOf(fp.fs), fp.dirSect);
    }
  }

  /** f_sync on a file with the flag set. */
  method SyncModified(fp: File, now: Dword) returns (res: FResult)
    requires fp.Inv() && fp.modified
    modifies fp`modified, fp`dirty, fp.fs`disk, fp.fs`wflag, fp.fs`faults, fp.fs`lostWrites, fp.fs`winsect, fp.fs.win, fp.fs`fsiFlag
    ensures fp.Inv() && old(fp.fs.Log()).Onward(fp.fs.Log()) && fp.fs.Fat() == old(fp.fs.Fat())
    ensures fp.err == Ok ==> fp.Placed() && fp.Data() == old(fp.Data())
    ensures fp.err == Ok ==> OthersBut(fp.fs.g, old(DevOf(fp.fs)), fp.chain, DevOf(fp.fs), fp.chain, fp.dirSect)
    ensures res == Ok ==> !fp.modified && (fp.err == Ok ==> Durable(fp, now))
    ensures res == Ok && fp.fs.g.fsType == Fat32 && old(fp.fs.fsiFlag) == 1 && fp.fs.faults == old(fp.fs.faults) ==>
              fp.fs.g.volbase + 1 < |fp.fs.disk| && IsFsInfo(fp.fs.disk[fp.fs.g.volbase + 1], fp.fs.freeClst, fp.fs.lastClst)
    ensures res == Ok || (res == DiskErr && fp.fs.faults > old(fp.fs.faults))
    ensures fp.fs.refuses ==> fp.fs.faults == old(fp.fs.faults) + 1
    ensures fp.fs.refuses ==> res != Ok && fp.fs.disk == old(fp.fs.disk) && (old(fp.dirty) ==> fp.dirty)
    ensures fp.fs.refuses && old(!fp.dirty && fp.fs.winsect == fp.dirSect) ==> !fp.modified && fp.fs.wflag
  {
    hide FatFs.FsInfoTold, FatFs.Valid, FatFs.Fat, FatFs.Logical, FatFs.Image, Laid, Clean, Sectors, BytesOf, Cursor, IsEntry, IsFsInfo,
         Durable, OthersBut, OthersKept, EntrySynced, GoodVolume, DirPlaced;
    ghost var g, d, x := fp.fs.g, DevOf(fp.fs), fp.dirSect;
    VolumeIsGood(fp.fs);
    var ok := FlushForSync(fp);
    if !ok { return DiskErr; }
    ghost var d1, f1 := DevOf(fp.fs), fp.View();
    ghost var was;
    res, was := SyncEntry(fp, now);
    if fp.err == Ok {
      EntryApart(g, d1, DevOf(fp.fs), f1);
      EntryOthers(g, d, d1, DevOf(fp.fs), f1, x);
      if res == Ok {
        FlushedIsDurable(fp, now, was);
      }
    }
  }

  method Sync(fp: File, now: Dword) returns (res: FResult)
    requires fp.Inv()
    modifies fp`modified, fp`dirty, fp.fs`alive, fp.fs`disk, fp.fs`wflag, fp.fs`faults, fp.fs`lostWrites, fp.fs`winsect, fp.fs.win,
             fp.fs`fsiFlag
    ensures if fp.fs.alive then old(fp.fs.alive) else res == InvalidObject
    ensures fp.Inv() && old(fp.fs.Log()).Onward(fp.fs.Log()) && fp.fs.Fat() == old(fp.fs.Fat())
    // the file reads the same before and after, whatever happens
    ensures fp.err == Ok ==> fp.Placed() && fp.Data() == old(fp.Data())
    // other files keep their chains, and their sectors but for the one the entry is in
    ensures fp.err == Ok ==> OthersBut(fp.fs.g, old(DevOf(fp.fs)), fp.chain, DevOf(fp.fs), fp.chain, fp.dirSect)
    // success means that the device alone holds it exactly when there was something to do, or it held it before
    ensures res == Ok && old(fp.modified) ==> !fp.modified && (fp.err == Ok ==> Durable(fp, now))
    ensures res == Ok && fp.err == Ok ==> (OnDevice(fp) <==> old(fp.modified) || old(OnDevice(fp)))
    // and then FSInfo gives the free count and the hint, if a count has changed and no write has failed
    ensures res == Ok && old(fp.modified) && fp.fs.g.fsType == Fat32 && old(fp.fs.fsiFlag) == 1 && fp.fs.faults == old(fp.fs.faults) ==>
              fp.fs.g.volbase + 1 < |fp.fs.disk| && IsFsInfo(fp.fs.disk[fp.fs.g.volbase + 1], fp.fs.freeClst, fp.fs.lastClst)
    // nothing happens without the flag or on an unmounted volume
    ensures !old(fp.modified) ==> res == Ok || res == InvalidObject
    ensures !old(fp.modified) || res == InvalidObject ==>
              && fp.View() == old(fp.View()) && fp.modified == old(fp.modified)
              && DevOf(fp.fs) == old(DevOf(fp.fs)) && fp.fs.wflag == old(fp.fs.wflag)
    // failure: the flag stays unless it was sync_fs that failed; on a read-only device the data stay behind
    ensures fp.modified ==> old(fp.modified)
    // and it is the only device error then
    ensures fp.fs.refuses ==>
              fp.fs.disk == old(fp.fs.disk) && fp.fs.faults == old(fp.fs.faults) + (if res == DiskErr then 1 else 0)
    ensures fp.fs.refuses && old(fp.modified) ==> res != Ok && (old(fp.dirty) ==> fp.dirty)
    ensures fp.fs.refuses && old(fp.modified && !fp.dirty && fp.fs.winsect == fp.dirSect) && res != InvalidObject ==>
              res == DiskErr && !fp.modified && fp.fs.wflag
    ensures res == Ok || (res == InvalidObject && !fp.fs.alive) || (res == DiskErr && fp.fs.faults > old(fp.fs.faults))
  {
    hide FatFs.FsInfoTold, FatFs.Valid, FatFs.Fat, FatFs.Logical, FatFs.Image, Laid, Clean, Sectors, BytesOf, Cursor, IsEntry, Durable,
         OthersBut, OthersKept;
    if fp.err == Ok {
      FileFacts(fp);
      UntouchedBut(fp.fs.g, DevOf(fp.fs), fp.chain, fp.dirSect);
    }
    res := Validate(fp);
    if res == Ok && fp.modified {
      res := SyncModified(fp, now);
    }
  }

  /** With the file on the device and no new error, a mount finds the free count and the hint of this one. */
  method Remount(fp: File) returns (fs: FatFs)
    requires fp.Placed() && OnDevice(fp) && fp.fs.Log().info && fp.fs.FsInfoTold()
    ensures fs.Valid() && fs.g == fp.fs.g && fs.disk == fp.fs.disk && fs.Fat() == fp.fs.Fat()
    ensures fs.faults == 0 && fp.fs.freeClst <= fs.g.nFatent - 2 ==> fs.freeClst == fp.fs.freeClst && fs.lastClst == fp.fs.lastClst
    ensures fs.faults == 0 && fp.fs.freeClst <= fs.g.nFatent - 2 && FreeOk(fp.fs) ==> FreeOk(fs)
  {
    hide IsEntry, Laid, Sectors, Signed, Word32, Mirrored, PowerOfTwo, Geometry.ClusterBase, Table;
    fs := new FatFs(fp.fs.g, fp.fs.disk, true);
    FatInsideDisk(fs.g);
    SameFatSectors(fs.g, fs.Logical(), fp.fs.disk, fs.g.fsize);
  }

  /** A truncation and a flush that both succeed leave the shorter file on the device. */
  method TruncateAndSync(fp: File, now: Dword) returns (cut: FResult, flushed: FResult)
    requires fp.Inv() && fp.err == Ok && fp.fptr < fp.objsize
    modifies fp`chain, fp`sclust, fp`objsize, fp`modified, fp`dirty, fp`err, fp.fs`alive, fp.fs`disk, fp.fs`wflag, fp.fs`faults,
             fp.fs`lostWrites, fp.fs`winsect, fp.fs.win, fp.fs`freeClst, fp.fs`torn, fp.fs`fsiFlag
    ensures fp.Inv() && old(fp.Placed())
    ensures cut == flushed == Ok ==> fp.Placed() && fp.Data() == old(fp.Data())[..old(fp.fptr)] && Durable(fp, now)
  {
    hide FatFs.FsInfoTold, FatFs.Valid, FatFs.Fat, FatFs.Logical, FatFs.Image, Laid, Clean, Sectors, BytesOf, Cursor, IsEntry, Durable,
         OthersBut, OthersKept;
    FileFacts(fp);
    cut := Truncate(fp);
    flushed := cut;
    if cut == Ok { flushed := Sync(fp, now); }
  }

  /**
   Two calls on a device that has become read-only: the first reports the error and clears the flag,
   so the second finds nothing to do and reports success, with the file not on the device.
   */
  method SyncTwice(fp: File, now: Dword) returns (first: FResult, second: FResult)
    requires fp.Inv() && fp.err == Ok && fp.fs.refuses && fp.modified && !fp.dirty && fp.fs.winsect == fp.dirSect
    modifies fp`modified, fp`dirty, fp.fs`alive, fp.fs`disk, fp.fs`wflag, fp.fs`faults, fp.fs`lostWrites, fp.fs`winsect, fp.fs.win,
             fp.fs`fsiFlag
    ensures fp.Inv() && fp.Placed() && first != Ok
    ensures fp.fs.alive ==> first == DiskErr && second == Ok && !OnDevice(fp)
  {
    hide FatFs.FsInfoTold, FatFs.Valid, FatFs.Fat, FatFs.Logical, FatFs.Image, Laid, Clean, Sectors, BytesOf, Cursor, IsEntry;
    FileFacts(fp);
    first := Sync(fp, now);
    second := first;
    if first == DiskErr {
      FileFacts(fp);
      second := Sync(fp, now);
    }
  }

  lemma UntouchedBut(g: Geometry, d: Dev, chain: seq<nat>, x: nat)
    ensures OthersBut(g, d, chain, d, chain, x)
  {
  }

  lemma BackWrittenOthers(g: Geometry, d: Dev, f: FileView, d1: Dev, x: nat)
    requires Laid(g, d, f) && OnlySector(d, d1, f.dirty, f.sect)
    ensures OthersBut(g, d, f.chain, d1, f.chain, x)
  {
    hide Laid, OthersKept, OthersBut;
    FlushedOthers(g, d, f, d1);
    KeptIsBut(g, d, f.chain, d1, f.chain, x);
  }

  lemma EntryOthers(g: Geometry, d: Dev, d1: Dev, d2: Dev, f: FileView, x: nat)
    requires GoodVolume(g, d) && OthersBut(g, d, f.chain, d1, f.chain, x) && EntrySynced(g, d1, d2, x)
    ensures OthersBut(g, d, f.chain, d2, f.chain, x)
  {
    hide Sectors, IsChain, PowerOfTwo, TableKept;
    SameTable(d1.fat, f.chain);
    assert OthersBut(g, d1, f.chain, d2, f.chain, x);
    hide OthersBut;
    ButOnward(g, d, f.chain, d1, f.chain, d2, f.chain, x);
  }

  lemma BackWritten(fp: File, d: Dev, f: FileView, ok: bool)
    requires fp.Shaped() && Laid(fp.fs.g, d, f) && Clean(fp.fs.g, d, f) && 0 < fp.fs.g.csize && Cursor(fp.fs.g, f)
    requires OnlySector(d, DevOf(fp.fs), f.dirty, f.sect) && fp.View() == f.(dirty := fp.dirty)
    requires ok ==> !fp.dirty && (f.dirty && f.sect < |fp.fs.disk| ==> fp.fs.disk[f.sect] == f.buf)
    requires !ok ==> f.dirty && fp.dirty
    ensures Laid(fp.fs.g, DevOf(fp.fs), fp.View()) && Clean(fp.fs.g, DevOf(fp.fs), fp.View()) && Cursor(fp.fs.g, fp.View())
    ensures BytesOf(fp.fs.g, DevOf(fp.fs), fp.View()) == BytesOf(fp.fs.g, d, f)
  {
    hide FatFs.FsInfoTold, FatFs.Valid, FatFs.Fat, FatFs.Logical, Laid, Sectors, BytesOf;
    if f.dirty {
      BufferInData(fp.fs.g, d, f);
      BufferFlushed(fp.fs.g, d, DevOf(fp.fs), f, ok);
    } else {
      var d' := DevOf(fp.fs);
      assert d'.disk == d.disk && d'.view == d.view;
      assert fp.View() == f;
      StoreKept(fp.fs.g, d, d', f);
    }
  }
}
