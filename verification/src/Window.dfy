/**
 The filesystem object and its one-sector write-back window (ff.c, sync_window, move_window).
 The device is part of the object: disk_read and disk_write may fail at any call, a failed
 read leaves junk in the buffer and a failed write leaves junk in the target sectors.
 */
module Window {
  import opened Bytes
  import opened Volume

  datatype FResult = Ok | DiskErr | IntErr | NoFile | Denied | InvalidObject

  /**
   What has gone wrong so far: device errors, failed writes among them (from 1 on if the FATs differed at
   mount), and FAT12 entries left half stored. tears says that the FAT has entries that can be, info that the
   FSInfo sector is in use, and told that it is up to date unless fsi_flag says otherwise.
   */
  datatype ErrorLog = ErrorLog(faults: nat, lostWrites: nat, torn: nat, tears: bool, info: bool, told: bool) {
    /** A later log: without a new error it is the same, and only a FAT with such entries tears. */
    ghost predicate Onward(l: ErrorLog) {
      && faults <= l.faults && lostWrites <= l.lostWrites && torn <= l.torn && l.tears == tears && l.info == info
      && (l.faults == faults ==> l.lostWrites == lostWrites && l.torn == torn && (told ==> l.told))
      && (!tears ==> l.torn == torn)
    }
  }

  ghost predicate Told(g: Geometry, disk: seq<Sector>, fsiFlag: Byte, freeClst: Dword, lastClst: Dword) {
    g.fsType == Fat32 && fsiFlag == 0 && freeClst <= g.nFatent - 2 ==>
      g.volbase + 1 < |disk| && Tells(disk[g.volbase + 1], freeClst, lastClst)
  }

  /** Whatever is written elsewhere, FSInfo is as up to date as it was. */
  lemma ToldKept(fs: FatFs, disk: seq<Sector>)
    requires |fs.disk| == |disk|
    requires fs.g.volbase + 1 < |disk| && fs.g.fsType == Fat32 ==> fs.disk[fs.g.volbase + 1] == disk[fs.g.volbase + 1]
    ensures Told(fs.g, disk, fs.fsiFlag, fs.freeClst, fs.lastClst) ==> fs.FsInfoTold()
  {
  }

  class FatFs {
    const g: Geometry
    const win: array<Byte>       // the access window
    var disk: seq<Sector>        // the device
    var winsect: Dword           // sector appearing in the window
    var wflag: bool              // window is dirty
    var fsiFlag: Byte            // 0x80: FSInfo unused, 1: allocation changed
    var freeClst: Dword          // free cluster count, unknown if > nFatent - 2
    var lastClst: Dword          // allocation hint
    var refuses: bool            // a device that has become read-only: no write succeeds or changes it
    var alive: bool              // the volume has been neither remounted nor removed: validate() finds its objects alive
    ghost var faults: nat        // device errors so far
    ghost var lostWrites: nat    // failed writes so far; 0 also says the FATs agreed at mount
    ghost var torn: nat          // FAT12 entries left half stored so far

    /** FSInfo is written through the window without a check, so after a failure the window may differ from it. */
    ghost predicate FsInfo(s: int) {
      g.fsType == Fat32 && s == g.volbase + 1
    }

    /** While fsi_flag is 0 the device gives the free count that is cached, if one is, and the hint with it. */
    ghost predicate FsInfoTold()
      reads this`disk, this`fsiFlag, this`freeClst, this`lastClst
    {
      Told(g, disk, fsiFlag, freeClst, lastClst)
    }

    /** Something waits to be written: the window, or the FSInfo sector. */
    ghost predicate Pending()
      reads this`wflag, this`fsiFlag
    {
      wflag || fsiFlag == 1
    }

    ghost function Log(): ErrorLog
      reads this`faults, this`lostWrites, this`torn, this`disk, this`fsiFlag, this`freeClst, this`lastClst
    {
      ErrorLog(faults, lostWrites, torn, g.fsType == Fat12 && g.nFatent > 341, g.fsType == Fat32 && fsiFlag <= 1, FsInfoTold())
    }

    ghost predicate Valid()
      reads this`disk, this`wflag, this`winsect, this`lostWrites, win
    {
      && g.Valid()
      && win.Length == 512
      && g.ClusterBase(g.nFatent) <= |disk| <= 0xFFFF_FFFF
      && (wflag ==> g.fatbase <= winsect < |disk| && !g.InFat2(winsect))
      && (!wflag && winsect < |disk| && !g.InFat2(winsect) && (FsInfo(winsect) ==> lostWrites == 0) ==> win[..] == disk[winsect])
      && (lostWrites == 0 ==> Mirrored(g, disk, wflag, winsect))
    }

    ghost function Logical(): (l: seq<Sector>)
      requires win.Length == 512
      reads this`disk, this`wflag, this`winsect, win
      ensures |l| == |disk|
    {
      LogicalDisk(g, disk, wflag, winsect, win[..])
    }

    ghost function Image(): (img: seq<Byte>)
      requires Valid()
      reads this`disk, this`wflag, this`winsect, this`lostWrites, win
      ensures |img| == 512 * g.fsize && FatBytes(g.fsType, g.nFatent) <= |img|
    {
      FatInsideDisk(g);
      FatImage(g, Logical())
    }

    ghost function Fat(): (fat: seq<nat>)
      requires Valid()
      reads this`disk, this`wflag, this`winsect, this`lostWrites, win
      ensures |fat| == g.nFatent
    {
      Table(g.fsType, g.nFatent, Image())
    }

    ghost function Upper(): seq<nat>
      requires Valid()
      reads this`disk, this`wflag, this`winsect, this`lostWrites, win
    {
      ReservedBits(g.fsType, g.nFatent, Image())
    }

    /**
     A volume as a mount leaves it. Allocation information comes from the FSInfo sector if the boot record says (info)
     that there is one next to it, and is unknown otherwise.
     */
    constructor (g: Geometry, disk: seq<Sector>, info: bool)
      requires g.Valid() && g.ClusterBase(g.nFatent) <= |disk| <= 0xFFFF_FFFF
      ensures Valid() && fresh(win) && this.g == g && this.disk == disk && !wflag && alive && !refuses
      ensures FsInfoTold() && torn == 0
      ensures !info || g.fsType != Fat32 ==> faults == 0
      ensures (fsiFlag == 0 && info && g.fsType == Fat32) || (fsiFlag == 0x80 && (info && g.fsType == Fat32 ==> faults > 0))
      ensures g.volbase + 1 < |disk| && if fsiFlag == 0 && Signed(disk[g.volbase + 1])
              then Tells(disk[g.volbase + 1], freeClst, lastClst) else freeClst == lastClst == 0xFFFF_FFFF
    {
      this.g := g;
      this.disk := disk;
      win := new Byte[512];
      winsect := 0xFFFF_FFFF;
      wflag := false;
      fsiFlag := 0x80;
      freeClst := 0xFFFF_FFFF;
      lastClst := 0xFFFF_FFFF;
      alive, refuses, faults, torn := true, false, 0, 0;
      lostWrites := if Mirrored(g, disk, false, 0xFFFF_FFFF) then 0 else 1;
      new;
      InfoInFront(this);
      if g.fsType == Fat32 && info { LoadFsInfo(this); }
    }
  }

  /** While no write has failed, the second FAT equals the first on every sector but a dirty window's. */
  lemma FatsAgree(fs: FatFs, s: nat)
    requires fs.Valid() && fs.lostWrites == 0 && fs.g.nFats == 2 && fs.g.InFat1(s) && !(fs.wflag && s == fs.winsect)
    ensures s + fs.g.fsize < |fs.disk| && fs.disk[s + fs.g.fsize] == fs.disk[s]
  {
    FatInsideDisk(fs.g);
  }

  lemma InfoInFront(fs: FatFs)
    requires fs.g.Valid() && fs.g.ClusterBase(fs.g.nFatent) <= |fs.disk|
    ensures fs.g.volbase + 1 < |fs.disk| && (fs.g.fsType == Fat32 ==> fs.g.volbase + 1 < fs.g.fatbase)
    ensures fs.fsiFlag != 0 ==> fs.FsInfoTold()
  {
  }

  /** "Get FSInfo if available". */
  method LoadFsInfo(fs: FatFs)
    requires fs.Valid() && !fs.wflag && fs.g.fsType == Fat32 && fs.winsect == 0xFFFF_FFFF
    requires fs.fsiFlag == 0x80 && fs.freeClst == fs.lastClst == 0xFFFF_FFFF
    modifies fs`disk, fs`wflag, fs`faults, fs`lostWrites, fs`winsect, fs`fsiFlag, fs`freeClst, fs`lastClst, fs.win
    ensures fs.Valid() && !fs.wflag && fs.disk == old(fs.disk) && fs.g.volbase + 1 < |fs.disk| && fs.FsInfoTold()
    ensures fs.fsiFlag == 0 || (fs.fsiFlag == 0x80 && fs.faults > old(fs.faults))
    ensures if fs.fsiFlag == 0 && Signed(fs.disk[fs.g.volbase + 1]) then Tells(fs.disk[fs.g.volbase + 1], fs.freeClst, fs.lastClst)
            else fs.freeClst == fs.lastClst == 0xFFFF_FFFF
  {
    hide Word32, Geometry.ClusterBase, PowerOfTwo, Mirrored;
    InfoInFront(fs);
    FatInsideDisk(fs.g);
    var res := MoveWindow(fs, fs.g.volbase + 1);
    if res == Ok {
      assert fs.win[..] == fs.disk[fs.g.volbase + 1];
      fs.fsiFlag := 0;
      if Signed(fs.win[..]) {
        fs.freeClst, fs.lastClst := Word32(fs.win[..], 488), Word32(fs.win[..], 492);
      }
    }
  }

  // --------------------------------------------------------------- the device

  method DiskRead(fs: FatFs, buf: array<Byte>, off: nat, sect: Dword, count: nat) returns (ok: bool)
    requires off + 512 * count <= buf.Length
    modifies buf, fs`faults
    ensures fs.faults == old(fs.faults) + (if ok then 0 else 1)
    ensures forall i :: 0 <= i < buf.Length && !(off <= i < off + 512 * count) ==> buf[i] == old(buf[i])
    ensures ok ==> sect + count <= |fs.disk|
    ensures ok ==> forall i :: 0 <= i < 512 * count ==> buf[off + i] == fs.disk[sect + i / 512][i % 512]
  {
    ok := *;
    ok := ok && sect + count <= |fs.disk|;
    var i := 0;
    while i < 512 * count
      invariant 0 <= i <= 512 * count && fs.faults == old(fs.faults)
      invariant forall j :: 0 <= j < buf.Length && !(off <= j < off + i) ==> buf[j] == old(buf[j])
      invariant ok ==> forall j :: 0 <= j < i ==> buf[off + j] == fs.disk[sect + j / 512][j % 512]
    {
      var junk: Byte :| 0 <= junk < 256;
      buf[off + i] := if ok then fs.disk[sect + i / 512][i % 512] else junk;
      i := i + 1;
    }
    fs.faults := fs.faults + (if ok then 0 else 1);
  }

  method DiskWrite(fs: FatFs, buf: array<Byte>, off: nat, sect: Dword, count: nat) returns (ok: bool)
    requires off + 512 * count <= buf.Length
    modifies fs`disk, fs`faults, fs`lostWrites
    ensures |fs.disk| == |old(fs.disk)|
    ensures fs.faults == old(fs.faults) + (if ok then 0 else 1)
    ensures fs.lostWrites == old(fs.lostWrites) + (if ok then 0 else 1)
    ensures forall s :: 0 <= s < |fs.disk| && !(sect <= s < sect + count) ==> fs.disk[s] == old(fs.disk[s])
    ensures fs.refuses ==> !ok && fs.disk == old(fs.disk)
    ensures ok ==> sect + count <= |fs.disk|
    ensures ok ==> forall s :: sect <= s < sect + count ==>
              fs.disk[s] == buf[off + 512 * (s - sect)..off + 512 * (s - sect) + 512]
  {
    ok := *;
    ok := ok && !fs.refuses && sect + count <= |fs.disk|;
    var k := 0;
    while k < count && sect + k < |fs.disk| && !fs.refuses
      invariant 0 <= k <= count && fs.faults == old(fs.faults) && fs.lostWrites == old(fs.lostWrites)
      invariant |fs.disk| == |old(fs.disk)|
      invariant forall s :: 0 <= s < |fs.disk| && !(sect <= s < sect + k) ==> fs.disk[s] == old(fs.disk[s])
      invariant fs.refuses ==> !ok && fs.disk == old(fs.disk)
      invariant ok ==> forall s :: sect <= s < sect + k ==>
                  fs.disk[s] == buf[off + 512 * (s - sect)..off + 512 * (s - sect) + 512]
    {
      var s: Sector :| s == ZERO_SECTOR || |s| == 512;
      if ok {
        s := buf[off + 512 * k..off + 512 * k + 512];
      }
      fs.disk := fs.disk[sect + k := s];
      k := k + 1;
    }
    fs.faults, fs.lostWrites := fs.faults + (if ok then 0 else 1), fs.lostWrites + (if ok then 0 else 1);
  }

  // --------------------------------------------------------------- the window

  lemma UnsignedRangeTest(s: Dword, base: Dword, size: Dword)
    requires base + size <= 0x1_0000_0000
    ensures Sub32(s, base) < size <==> base <= s < base + size
  {
  }

  /** Only the sector waiting in the window, and the FAT copies, may differ on the device. */
  ghost predicate OnlyWindowFlushed(g: Geometry, disk: seq<Sector>, wflag: bool, winsect: nat, disk': seq<Sector>) {
    && |disk'| == |disk|
    && forall s :: 0 <= s < |disk| && !g.InFat2(s) && !(wflag && s == winsect) ==> disk'[s] == disk[s]
  }

  /** Writing the dirty window out, wholly or with a failure, does not show on the logical disk. */
  lemma FlushUnseen(g: Geometry, disk: seq<Sector>, disk': seq<Sector>, winsect: nat, win: Sector, wflag': bool)
    requires OnlyWindowFlushed(g, disk, true, winsect, disk')
    requires winsect < |disk| && (!wflag' ==> disk'[winsect] == win)
    ensures LogicalDisk(g, disk', wflag', winsect, win) == LogicalDisk(g, disk, true, winsect, win)
  {
  }

  /** Writing a dirty window keeps the mirror elsewhere; a sector outside the FATs, or of a single FAT, has none. */
  lemma MirrorElsewhere(g: Geometry, disk: seq<Sector>, disk': seq<Sector>, winsect: nat)
    requires Mirrored(g, disk, true, winsect) && |disk'| == |disk| && !g.InFat2(winsect)
    requires forall s :: 0 <= s < |disk| && s != winsect ==> disk'[s] == disk[s]
    ensures Mirrored(g, disk', true, winsect)
    ensures g.nFats != 2 || !g.InFat1(winsect) ==> Mirrored(g, disk', false, winsect)
  {
  }

  /** With nothing pending, nothing is pending afterwards and the device is as it was. */
  ghost predicate Quiet(pending: bool, disk: seq<Sector>, pending': bool, disk': seq<Sector>) {
    pending || (!pending' && disk' == disk)
  }

  method SyncWindow(fs: FatFs) returns (res: FResult)
    requires fs.Valid()
    modifies fs`disk, fs`wflag, fs`faults, fs`lostWrites
    ensures fs.Valid()
    ensures fs.Logical() == old(fs.Logical())
    ensures res == Ok || res == DiskErr
    ensures res == Ok ==> !fs.wflag
    ensures !old(fs.wflag) ==> res == Ok && fs.faults == old(fs.faults)
    ensures res != Ok ==> fs.wflag && fs.lostWrites > old(fs.lostWrites) && fs.faults > old(fs.faults)
    ensures old(fs.wflag) && fs.refuses ==> res != Ok
    ensures fs.refuses ==> fs.disk == old(fs.disk) && fs.faults == old(fs.faults) + (if res == Ok then 0 else 1)
    ensures old(fs.Log()).Onward(fs.Log())
    ensures Quiet(old(fs.Pending()), old(fs.disk), fs.Pending(), fs.disk)
    ensures OnlyWindowFlushed(fs.g, old(fs.disk), old(fs.wflag), fs.winsect, fs.disk)
  {
    hide Told, Mirrored, PowerOfTwo, Geometry.ClusterBase;
    res := Ok;
    if fs.wflag {
      ghost var disk := fs.disk;
      var ok := DiskWrite(fs, fs.win, 0, fs.winsect, 1);
      if ok {
        fs.wflag := false;
        if fs.lostWrites == 0 { MirrorElsewhere(fs.g, disk, fs.disk, fs.winsect); }
        assert fs.disk[fs.winsect] == fs.win[..] by {
          assert fs.win[0..512] == fs.win[..];
        }
        UnsignedRangeTest(fs.winsect, fs.g.fatbase, fs.g.fsize);
        if Sub32(fs.winsect, fs.g.fatbase) < fs.g.fsize {
          if fs.g.nFats == 2 {
            WriteMirror(fs);
          }
        }
      } else {
        res := DiskErr;
      }
      ToldKept(fs, disk);
      FlushUnseen(fs.g, disk, fs.disk, fs.winsect, fs.win[..], fs.wflag);
    }
  }

  /** The unchecked write of the clean FAT window to the second FAT. */
  method WriteMirror(fs: FatFs)
    requires fs.g.Valid() && fs.win.Length == 512 && fs.g.nFats == 2 && fs.g.InFat1(fs.winsect)
    requires fs.winsect < |fs.disk| && fs.disk[fs.winsect] == fs.win[..]
    requires fs.g.ClusterBase(fs.g.nFatent) <= |fs.disk| <= 0xFFFF_FFFF
    modifies fs`disk, fs`faults, fs`lostWrites
    ensures old(fs.Log()).Onward(fs.Log())
    ensures fs.refuses ==> fs.disk == old(fs.disk)
    ensures OnlyWindowFlushed(fs.g, old(fs.disk), false, fs.winsect, fs.disk)
    ensures fs.lostWrites == old(fs.lostWrites) && Mirrored(fs.g, old(fs.disk), true, fs.winsect) ==>
              Mirrored(fs.g, fs.disk, false, fs.winsect)
  {
    hide Told;
    ghost var disk := fs.disk;
    var ok := DiskWrite(fs, fs.win, 0, fs.winsect + fs.g.fsize, 1);
    ToldKept(fs, disk);
    if ok {
      assert fs.disk[fs.winsect + fs.g.fsize] == fs.win[..] by {
        assert fs.win[0..512] == fs.win[..];
      }
    }
  }

  /** Where a clean window is does not matter. */
  lemma WindowClean(g: Geometry, disk: seq<Sector>, w: nat, w': nat)
    requires Mirrored(g, disk, false, w)
    ensures Mirrored(g, disk, false, w')
  {
  }

  method MoveWindow(fs: FatFs, sect: Dword) returns (res: FResult)
    requires fs.Valid()
    requires !fs.g.InFat2(sect)
    modifies fs`disk, fs`wflag, fs`faults, fs`lostWrites, fs`winsect, fs.win
    ensures fs.Valid()
    ensures fs.Logical() == old(fs.Logical())
    ensures res == Ok || res == DiskErr
    ensures res == Ok ==> fs.winsect == sect
    ensures sect == old(fs.winsect) ==> res == Ok && fs.wflag == old(fs.wflag) && fs.disk == old(fs.disk) && fs.win[..] == old(fs.win[..])
    // the window shows the sector, but for FSInfo already in it after a failed write
    ensures res == Ok && sect < |fs.disk| && (fs.FsInfo(sect) && old(fs.winsect) == sect ==> fs.lostWrites == 0) ==>
              fs.win[..] == fs.Logical()[sect]
    ensures res != Ok ==> fs.faults > old(fs.faults)
    ensures res != Ok ==>
      || (fs.winsect == old(fs.winsect) && fs.wflag && fs.win[..] == old(fs.win[..]))
      || (fs.winsect == 0xFFFF_FFFF && !fs.wflag)
    ensures old(fs.Log()).Onward(fs.Log())
    ensures fs.refuses ==> fs.disk == old(fs.disk) && fs.faults == old(fs.faults) + (if res == Ok then 0 else 1)
    ensures Quiet(old(fs.Pending()), old(fs.disk), fs.Pending(), fs.disk)
    ensures OnlyWindowFlushed(fs.g, old(fs.disk), old(fs.wflag), old(fs.winsect), fs.disk)
  {
    hide Told, Mirrored, PowerOfTwo, Geometry.ClusterBase;
    res := Ok;
    if sect != fs.winsect {
      res := SyncWindow(fs);
      if res == Ok {
        var to := sect;
        var ok := DiskRead(fs, fs.win, 0, sect, 1);
        if !ok {
          to := 0xFFFF_FFFF;
          res := DiskErr;
        } else {
          assert fs.win[..] == fs.disk[sect] by {
            forall i | 0 <= i < 512 ensures fs.win[i] == fs.disk[sect][i] {
              assert fs.win[0 + i] == fs.disk[sect + i / 512][i % 512];
            }
          }
        }
        if fs.lostWrites == 0 { WindowClean(fs.g, fs.disk, fs.winsect, to); }
        fs.winsect := to;
        assert fs.Logical() == old(fs.Logical());
      }
    }
  }
}
