/**
 Reading a file (ff.c, f_read): whole sectors straight into the caller's buffer,
 parts of sectors through the file's own buffer, clusters followed along the FAT.
 */
module FileRead {
  import opened Bytes
  import opened Volume
  import opened Window
  import opened FatEntries
  import opened Chains
  import opened Layout
  import opened FileState

  // ------------------------------------------------------------- the sector buffer

  /** disk_write of data sectors: neither the window nor the FAT notices. */
  method WriteData(fs: FatFs, buf: array<Byte>, off: nat, sect: Dword, count: nat) returns (ok: bool)
    requires fs.Valid() && off + 512 * count <= buf.Length
    requires fs.g.database <= sect && !(sect <= fs.winsect < sect + count)
    modifies fs`disk, fs`faults, fs`lostWrites
    ensures fs.Valid() && fs.Fat() == old(fs.Fat())
    ensures |fs.disk| == |old(fs.disk)|
    ensures fs.faults == old(fs.faults) + (if ok then 0 else 1) && old(fs.Log()).Onward(fs.Log())
    ensures forall s :: 0 <= s < |fs.disk| && !(sect <= s < sect + count) ==> fs.disk[s] == old(fs.disk[s])
    ensures forall s :: 0 <= s < |fs.disk| && !(sect <= s < sect + count) ==> fs.Logical()[s] == old(fs.Logical()[s])
    ensures fs.refuses ==> fs.disk == old(fs.disk)
    ensures ok ==> !fs.refuses && sect + count <= |fs.disk|
    ensures ok ==> forall s :: sect <= s < sect + count ==>
              fs.disk[s] == buf[off + 512 * (s - sect)..off + 512 * (s - sect) + 512]
  {
    hide Told, Mirrored, PowerOfTwo, Geometry.ClusterBase, Table, LogicalDisk;
    ghost var disk := fs.disk;
    FatInsideDisk(fs.g);
    ok := DiskWrite(fs, buf, off, sect, count);
    ToldKept(fs, disk);
    DataWritten(fs.g, disk, fs.wflag, fs.winsect, fs.win[..], fs.disk, sect, count);
  }

  /** Writing sectors of the data area that are not in the window. */
  lemma DataWritten(g: Geometry, disk: seq<Sector>, wflag: bool, w: nat, win: Sector, disk': seq<Sector>, sect: nat, count: nat)
    requires g.fatbase + g.FatArea() <= sect && !(sect <= w < sect + count) && g.fatbase + g.FatArea() <= |disk| == |disk'|
    requires forall s :: 0 <= s < |disk| && !(sect <= s < sect + count) ==> disk'[s] == disk[s]
    ensures forall s :: 0 <= s < |disk| && !(sect <= s < sect + count) ==>
              LogicalDisk(g, disk', wflag, w, win)[s] == LogicalDisk(g, disk, wflag, w, win)[s]
    ensures FatImage(g, LogicalDisk(g, disk', wflag, w, win)) == FatImage(g, LogicalDisk(g, disk, wflag, w, win))
    ensures Mirrored(g, disk, wflag, w) ==> Mirrored(g, disk', wflag, w)
  {
    SameFatSectors(g, LogicalDisk(g, disk, wflag, w, win), LogicalDisk(g, disk', wflag, w, win), g.fsize);
  }

  /** disk_read of data sectors into a buffer other than the window. */
  method ReadData(fs: FatFs, buf: array<Byte>, off: nat, sect: Dword, count: nat) returns (ok: bool)
    requires fs.Valid() && off + 512 * count <= buf.Length && buf != fs.win
    modifies buf, fs`faults
    ensures fs.Valid() && fs.Fat() == old(fs.Fat())
    ensures fs.faults == old(fs.faults) + (if ok then 0 else 1)
    ensures forall i :: 0 <= i < buf.Length && !(off <= i < off + 512 * count) ==> buf[i] == old(buf[i])
    ensures ok ==> sect + count <= |fs.disk|
    ensures ok ==> forall i :: 0 <= i < 512 * count ==> buf[off + i] == fs.disk[sect + i / 512][i % 512]
  {
    ok := DiskRead(fs, buf, off, sect, count);
  }

  /** "if FA_DIRTY: disk_write the buffer, clear FA_DIRTY". */
  method FlushBuffer(fp: File) returns (res: FResult)
    requires fp.Placed()
    modifies fp`dirty, fp.fs`disk, fp.fs`faults, fp.fs`lostWrites
    ensures fp.Placed() && fp.Data() == old(fp.Data())
    ensures fp.fs.Fat() == old(fp.fs.Fat())
    ensures res == Ok || (res == DiskErr && fp.fs.faults > old(fp.fs.faults))
    ensures old(fp.fs.Log()).Onward(fp.fs.Log())
    ensures old(fp.Kept()).Untouched(fp.Kept())
    ensures res == Ok ==> !fp.dirty
    ensures res == Ok && (old(fp.dirty) || old(Clean(fp.fs.g, DevOf(fp.fs), fp.View()))) ==> Clean(fp.fs.g, DevOf(fp.fs), fp.View())
    ensures OnlySector(old(DevOf(fp.fs)), DevOf(fp.fs), old(fp.dirty), fp.sect)
  {
    hide FatFs.FsInfoTold, FatFs.Valid, FatFs.Fat, FatFs.Logical, Laid, Sectors;
    VolumeIsGood(fp.fs);
    res := Ok;
    if fp.dirty {
      ghost var d, f := DevOf(fp.fs), fp.View();
      BufferInData(fp.fs.g, d, f);
      var ok := WriteData(fp.fs, fp.buf, 0, fp.sect, 1);
      assert ok ==> fp.fs.disk[fp.sect] == fp.buf[..] by {
        assert fp.buf[0..512] == fp.buf[..];
      }
      BufferFlushed(fp.fs.g, d, DevOf(fp.fs), f, ok);
      if !ok {
        return DiskErr;
      }
      fp.dirty := false;
    }
  }

  lemma BufferInData(g: Geometry, d: Dev, f: FileView)
    requires Laid(g, d, f) && f.dirty
    ensures g.database <= f.sect < |d.disk| && f.sect != d.winsect
  {
    hide Sectors, PowerOfTwo, IsChain;
    FileSectors(g, d, f);
  }

  /** disk_read into the buffer, which is not dirty. */
  method ReadBuffer(fp: File, sect: Dword) returns (res: FResult)
    requires fp.Placed() && !fp.dirty
    modifies fp.buf, fp.fs`faults
    ensures fp.Placed() && fp.Data() == old(fp.Data()) && SameStore(old(DevOf(fp.fs)), DevOf(fp.fs))
    ensures res == Ok || (res == DiskErr && fp.fs.faults > old(fp.fs.faults))
    ensures res == Ok ==> sect < |fp.fs.disk| && fp.buf[..] == fp.fs.disk[sect]
  {
    hide FatFs.FsInfoTold, FatFs.Valid, FatFs.Fat, FatFs.Logical, Laid, Sectors;
    ghost var g, d, f := fp.fs.g, DevOf(fp.fs), fp.View();
    var ok := ReadData(fp.fs, fp.buf, 0, sect, 1);
    BufferIgnored(g, d, f, fp.sect, fp.buf[..]);
    StoreKept(g, d, DevOf(fp.fs), f.(buf := fp.buf[..]));
    res := if ok then Ok else DiskErr;
    assert ok ==> fp.buf[..] == fp.fs.disk[sect] by {
      if ok {
        forall i | 0 <= i < 512 ensures fp.buf[i] == fp.fs.disk[sect][i] {
          assert fp.buf[0 + i] == fp.fs.disk[sect + i / 512][i % 512];
        }
      }
    }
  }

  /** "if (fp->sect != sect) { write back; disk_read } fp->sect = sect". */
  method LoadSector(fp: File, sect: Dword) returns (res: FResult)
    requires fp.Placed() && Clean(fp.fs.g, DevOf(fp.fs), fp.View())
    requires fp.fs.g.database <= sect < |fp.fs.disk| && sect != fp.fs.winsect && sect != fp.dirSect
    modifies fp`dirty, fp`sect, fp.buf, fp.fs`disk, fp.fs`faults, fp.fs`lostWrites
    ensures fp.Placed() && fp.Data() == old(fp.Data())
    ensures fp.fs.Fat() == old(fp.fs.Fat())
    ensures res == Ok || (res == DiskErr && fp.fs.faults > old(fp.fs.faults))
    ensures old(fp.fs.Log()).Onward(fp.fs.Log())
    ensures old(fp.Kept()).Untouched(fp.Kept())
    ensures res == Ok ==> fp.sect == sect && Clean(fp.fs.g, DevOf(fp.fs), fp.View())
    ensures res != Ok ==> fp.sect == old(fp.sect)
    ensures sect == old(fp.sect) ==> res == Ok && fp.View() == old(fp.View()) && DevOf(fp.fs) == old(DevOf(fp.fs))
    ensures OnlySector(old(DevOf(fp.fs)), DevOf(fp.fs), old(fp.dirty), old(fp.sect))
  {
    hide FatFs.FsInfoTold, FatFs.Valid, FatFs.Fat, FatFs.Logical, Laid, Sectors;
    VolumeIsGood(fp.fs);
    res := Ok;
    if fp.sect != sect {
      res := FlushBuffer(fp);
      if res != Ok { return; }
      res := ReadBuffer(fp, sect);
      if res != Ok { return; }
      BufferIgnored(fp.fs.g, DevOf(fp.fs), fp.View(), sect, fp.buf[..]);
    }
    fp.sect := sect;
  }

  // ------------------------------------------------------------- following the chain

  /** The cluster after the one at sector k - 1, when sector k starts a new one. */
  lemma NextCluster(g: Geometry, d: Dev, f: FileView, k: nat)
    requires Laid(g, d, f) && k < |Sectors(g, f.chain)| && k % g.csize == 0
    ensures 0 < g.csize && k / g.csize < |f.chain|
    ensures f.chain != [] && f.sclust == f.chain[0] && IsChain(d.fat, f.chain)
    ensures k == 0 ==> k / g.csize == 0
    ensures k > 0 && OnCluster(g, f, k - 1) ==>
              2 <= f.clust < g.nFatent && |d.fat| == g.nFatent && d.fat[f.clust] == f.chain[k / g.csize]
  {
    hide Sectors, PowerOfTwo;
    SectorsLength(g, f.chain);
    BlockBound(k, g.csize, |f.chain|);
    if k > 0 {
      BlockBefore(k, g.csize);
    }
  }

  /** f_read on a cluster boundary: "fp->clust = next cluster". */
  method EnterCluster(fp: File) returns (res: FResult)
    requires fp.Placed() && Clean(fp.fs.g, DevOf(fp.fs), fp.View()) && Cursor(fp.fs.g, fp.View())
    requires fp.fptr < fp.objsize && fp.fptr % 512 == 0 && fp.fptr / 512 % fp.fs.g.csize == 0
    modifies fp`clust, fp.fs`disk, fp.fs`wflag, fp.fs`faults, fp.fs`lostWrites, fp.fs`winsect, fp.fs.win
    ensures fp.Placed() && fp.Data() == old(fp.Data())
    ensures fp.fs.Fat() == old(fp.fs.Fat())
    ensures DataKept(fp.fs.g, old(fp.fs.disk), old(fp.fs.winsect), fp.fs.disk, fp.fs.winsect) && fp.fs.Logical() == old(fp.fs.Logical())
    ensures Clean(fp.fs.g, DevOf(fp.fs), fp.View())
    ensures res == Ok || (res == DiskErr && fp.fs.faults > old(fp.fs.faults))
    ensures old(fp.fs.Log()).Onward(fp.fs.Log())
    ensures old(fp.Kept()).Untouched(fp.Kept())
    ensures res == Ok ==> OnCluster(fp.fs.g, fp.View(), fp.fptr / 512)
  {
    hide PowerOfTwo, FatFs.FsInfoTold, FatFs.Valid, FatFs.Fat, FatFs.Logical, FatFs.Image, Laid, Clean, Sectors, DataKept, IsChain, BytesOf;
    ghost var g, d, f := fp.fs.g, DevOf(fp.fs), fp.View();
    ghost var k := fp.fptr / 512;
    ReadableSector(g, d, f);
    NextCluster(g, d, f, k);
    ChainAllocated(d.fat, f.chain);
    var clst;
    if fp.fptr == 0 {
      clst := fp.sclust;
      NothingMoved(g, fp.fs.disk, fp.fs.winsect);
    } else {
      LastByteSector(fp.fptr);
      clst := GetFat(fp.fs, fp.clust);
    }
    VolumeIsGood(fp.fs);
    WindowMoved(g, d, DevOf(fp.fs), f);
    if fp.dirty { BufferClear(g, d, DevOf(fp.fs), fp.sect); }
    assert f.chain[k / g.csize] in f.chain;
    if clst < 2 { return IntErr; }
    if clst == DISK_ERROR { return DiskErr; }
    fp.clust := clst;
    CursorIgnored(g, DevOf(fp.fs), f, f.fptr, clst);
    res := Ok;
  }

  lemma LastByteSector(fptr: nat)
    requires fptr > 0 && fptr % 512 == 0
    ensures fptr / 512 > 0 && (fptr - 1) / 512 == fptr / 512 - 1
  {
  }

  lemma ReadableSector(g: Geometry, d: Dev, f: FileView)
    requires Laid(g, d, f) && f.fptr < f.objsize
    ensures f.fptr / 512 < |Sectors(g, f.chain)| && |d.disk| <= 0xFFFF_FFFF
    ensures 0 < g.csize && PowerOfTwo(g.csize)
  {
  }

  // ------------------------------------------------------------- whole sectors

  /** What a direct read must deliver: cc sectors of the file from sector k on. */
  ghost predicate Delivered(g: Geometry, d: Dev, f: FileView, k: nat, got: seq<Byte>)
    requires Laid(g, d, f) && k < |Sectors(g, f.chain)|
  {
    forall i :: 0 <= i < |got| ==>
      && Sectors(g, f.chain)[k] + i / 512 < |d.disk|
      && got[i] == SectorView(d.disk, Sectors(g, f.chain)[k] + i / 512, f.dirty, f.sect, f.buf)[i % 512]
  }

  lemma DeliveredBytes(g: Geometry, d: Dev, f: FileView, sect: nat, csect: nat, cc: nat, got: seq<Byte>)
    requires Laid(g, d, f) && SectorReady(g, d, f, sect, csect) && f.fptr / 512 < |Sectors(g, f.chain)|
    requires csect + cc <= g.csize && f.fptr + 512 * cc <= f.objsize && |got| == 512 * cc
    requires Delivered(g, d, f, f.fptr / 512, got)
    ensures got == BytesOf(g, d, f)[f.fptr..f.fptr + 512 * cc]
  {
    hide Laid, Sectors, BytesOf, PowerOfTwo;
    var b, k := BytesOf(g, d, f), f.fptr / 512;
    forall i | 0 <= i < 512 * cc ensures got[i] == b[f.fptr + i] {
      assert (f.fptr + i) / 512 == k + i / 512 && (f.fptr + i) % 512 == i % 512;
      ContiguousSectors(g, f.chain, k, i / 512);
      ByteAt(g, d, f, f.fptr + i);
    }
  }

  /** disk_read of cc sectors, then the dirty buffer laid over the one it replaces. */
  method ReadDirect(fp: File, buff: array<Byte>, off: nat, sect: Dword, cc: nat, ghost k: nat) returns (res: FResult)
    requires fp.Placed() && buff != fp.buf && buff != fp.fs.win && off + 512 * cc <= buff.Length
    requires k < |Sectors(fp.fs.g, fp.chain)| && sect == Sectors(fp.fs.g, fp.chain)[k]
    modifies buff, fp.fs`faults
    ensures fp.Placed() && SameStore(old(DevOf(fp.fs)), DevOf(fp.fs)) && fp.Data() == old(fp.Data())
    ensures res == Ok || (res == DiskErr && fp.fs.faults > old(fp.fs.faults))
    ensures old(fp.fs.Log()).Onward(fp.fs.Log())
    ensures forall i :: 0 <= i < buff.Length && !(off <= i < off + 512 * cc) ==> buff[i] == old(buff[i])
    ensures res == Ok ==> k < |Sectors(fp.fs.g, fp.chain)|
    ensures res == Ok ==> Delivered(fp.fs.g, DevOf(fp.fs), fp.View(), k, buff[off..off + 512 * cc])
  {
    hide FatFs.FsInfoTold, FatFs.Valid, FatFs.Fat, FatFs.Logical, Laid, Sectors, BytesOf;
    ghost var g, d, f := fp.fs.g, DevOf(fp.fs), fp.View();
    VolumeIsGood(fp.fs);
    var ok := ReadData(fp.fs, buff, off, sect, cc);
    StoreKept(g, d, DevOf(fp.fs), f);
    if !ok { return DiskErr; }
    UnsignedRangeTest(fp.sect, sect, cc);
    if fp.dirty && Sub32(fp.sect, sect) < cc {
      var o := off + 512 * (fp.sect - sect);
      forall i | 0 <= i < 512 {
        buff[o + i] := fp.buf[i];
      }
    }
    res := Ok;
    var got := buff[off..off + 512 * cc];
    forall i | 0 <= i < 512 * cc
      ensures sect + i / 512 < |d.disk| && got[i] == SectorView(d.disk, sect + i / 512, f.dirty, f.sect, f.buf)[i % 512]
    {
      assert got[i] == buff[off + i];
      if f.dirty && sect + i / 512 == f.sect {
        assert off + i == off + 512 * (fp.sect - sect) + i % 512;
      }
    }
  }

  // ------------------------------------------------------------- one turn of the loop

  /** What the buffer holds from the position on is what the file holds there. */
  lemma BufferedBytes(g: Geometry, d: Dev, f: FileView, got: seq<Byte>)
    requires Laid(g, d, f) && Clean(g, d, f) && OnSector(g, f, f.fptr / 512) && f.sect != 0
    requires f.fptr % 512 + |got| <= 512 && f.fptr + |got| <= f.objsize
    requires forall i :: 0 <= i < |got| ==> got[i] == f.buf[f.fptr % 512 + i]
    ensures got == BytesOf(g, d, f)[f.fptr..f.fptr + |got|]
  {
    hide Laid, Sectors, BytesOf;
    var b := BytesOf(g, d, f);
    forall i | 0 <= i < |got| ensures got[i] == b[f.fptr + i] {
      assert (f.fptr + i) / 512 == f.fptr / 512 && (f.fptr + i) % 512 == f.fptr % 512 + i;
      ByteAt(g, d, f, f.fptr + i);
    }
  }

  /** Part of a sector: memcpy out of the buffer. */
  method CopyOut(fp: File, buff: array<Byte>, off: nat, btr: nat) returns (rcnt: nat)
    requires fp.Placed() && Clean(fp.fs.g, DevOf(fp.fs), fp.View())
    requires buff != fp.buf && buff != fp.fs.win && 0 < btr <= fp.objsize - fp.fptr && off + btr <= buff.Length
    requires OnSector(fp.fs.g, fp.View(), fp.fptr / 512) && fp.sect != 0
    requires 0 < fp.fs.g.csize && OnCluster(fp.fs.g, fp.View(), fp.fptr / 512)
    modifies buff, fp`fptr
    ensures fp.Placed() && fp.Data() == old(fp.Data()) && Clean(fp.fs.g, DevOf(fp.fs), fp.View())
    ensures 0 < rcnt <= btr && fp.fptr == old(fp.fptr) + rcnt
    ensures forall i :: 0 <= i < buff.Length && !(off <= i < off + rcnt) ==> buff[i] == old(buff[i])
    ensures buff[off..off + rcnt] == fp.Data()[old(fp.fptr)..fp.fptr]
    ensures Cursor(fp.fs.g, fp.View())
  {
    hide FatFs.FsInfoTold, FatFs.Valid, FatFs.Fat, FatFs.Logical, Laid, Clean, Sectors, BytesOf, Cursor, OnSector, OnCluster;
    ghost var g, d, f := fp.fs.g, DevOf(fp.fs), fp.View();
    rcnt := 512 - fp.fptr % 512;
    if rcnt > btr { rcnt := btr; }
    forall i | 0 <= i < rcnt {
      buff[off + i] := fp.buf[fp.fptr % 512 + i];
    }
    BufferedBytes(g, d, f, buff[off..off + rcnt]);
    CursorIgnored(g, d, f, f.fptr + rcnt, f.clust);
    fp.fptr := fp.fptr + rcnt;
    assert fp.View() == f.(fptr := f.fptr + rcnt, clust := f.clust);
    OnSectorKept(g, f, fp.View(), f.fptr / 512);
    CursorAdvanced(g, f, fp.View(), rcnt);
  }

  /** Whole sectors: deliver them and move on. */
  method ReadSectors(fp: File, buff: array<Byte>, off: nat, sect: Dword, csect: nat, cc: nat) returns (res: FResult)
    requires fp.Placed() && Clean(fp.fs.g, DevOf(fp.fs), fp.View()) && SectorReady(fp.fs.g, DevOf(fp.fs), fp.View(), sect, csect)
    requires buff != fp.buf && buff != fp.fs.win && 0 < cc && off + 512 * cc <= buff.Length
    requires csect + cc <= fp.fs.g.csize && fp.fptr + 512 * cc <= fp.objsize
    modifies buff, fp`fptr, fp.fs`faults
    ensures fp.Placed() && fp.Data() == old(fp.Data()) && SameStore(old(DevOf(fp.fs)), DevOf(fp.fs))
    ensures Clean(fp.fs.g, DevOf(fp.fs), fp.View()) && 0 < fp.fs.g.csize
    ensures res == Ok || (res == DiskErr && fp.fs.faults > old(fp.fs.faults))
    ensures old(fp.fs.Log()).Onward(fp.fs.Log())
    ensures forall i :: 0 <= i < buff.Length && !(off <= i < off + 512 * cc) ==> buff[i] == old(buff[i])
    ensures res != Ok ==> fp.fptr == old(fp.fptr)
    ensures res == Ok ==> fp.fptr == old(fp.fptr) + 512 * cc && Cursor(fp.fs.g, fp.View())
    ensures res == Ok ==> buff[off..off + 512 * cc] == fp.Data()[old(fp.fptr)..fp.fptr]
  {
    hide FatFs.FsInfoTold, FatFs.Valid, FatFs.Fat, FatFs.Logical, Laid, Sectors, BytesOf, Delivered, Clean, Cursor, OnCluster,
         SectorReady, DevOf, SameStore;
    ghost var g, d0, f := fp.fs.g, DevOf(fp.fs), fp.View();
    ReadySector(g, d0, f, sect, csect);
    res := ReadDirect(fp, buff, off, sect, cc, fp.fptr / 512);
    assert fp.View() == f;
    ghost var d := DevOf(fp.fs);
    StoreKept(g, d0, d, f);
    if res != Ok { return; }
    ReadyKept(g, d0, d, f, sect, csect);
    DeliveredBytes(g, d, f, sect, csect, cc, buff[off..off + 512 * cc]);
    CursorIgnored(g, d, f, f.fptr + 512 * cc, f.clust);
    fp.fptr := fp.fptr + 512 * cc;
    assert fp.View() == f.(fptr := f.fptr + 512 * cc, clust := f.clust);
    SectorsAdvanced(g, d, f, fp.View(), sect, csect, cc);
  }

  /** On a sector boundary: the sector of the next byte, with clust on its cluster. */
  method SectorForRead(fp: File) returns (res: FResult, sect: Dword, csect: nat)
    requires fp.Placed() && Clean(fp.fs.g, DevOf(fp.fs), fp.View()) && Cursor(fp.fs.g, fp.View())
    requires fp.fptr < fp.objsize && fp.fptr % 512 == 0
    modifies fp`clust, fp.fs`disk, fp.fs`wflag, fp.fs`faults, fp.fs`lostWrites, fp.fs`winsect, fp.fs.win
    ensures fp.Placed() && fp.Data() == old(fp.Data()) && fp.fs.Fat() == old(fp.fs.Fat())
    ensures Clean(fp.fs.g, DevOf(fp.fs), fp.View())
    ensures DataKept(fp.fs.g, old(fp.fs.disk), old(fp.fs.winsect), fp.fs.disk, fp.fs.winsect) && fp.fs.Logical() == old(fp.fs.Logical())
    ensures res == Ok || (res == DiskErr && fp.fs.faults > old(fp.fs.faults))
    ensures old(fp.fs.Log()).Onward(fp.fs.Log()) && 0 < fp.fs.g.csize
    ensures old(fp.Kept()).Untouched(fp.Kept())
    ensures res == Ok ==> SectorReady(fp.fs.g, DevOf(fp.fs), fp.View(), sect, csect)
  {
    hide FatFs.FsInfoTold, FatFs.Valid, FatFs.Fat, FatFs.Logical, FatFs.Image, Laid, Clean, Sectors, DataKept, BytesOf, Cursor, OnCluster;
    sect := 0;
    ReadableSector(fp.fs.g, DevOf(fp.fs), fp.View());
    CursorParts(fp.fs.g, fp.View());
    var k := fp.fptr / 512;
    csect := And(k, fp.fs.g.csize - 1);
    MaskIsMod(k, fp.fs.g.csize);
    NothingMoved(fp.fs.g, fp.fs.disk, fp.fs.winsect);
    if csect == 0 {
      res := EnterCluster(fp);
      if res != Ok { return; }
    }
    SectorOfCluster(fp.fs.g, DevOf(fp.fs), fp.View(), k);
    var base := Clst2Sect(fp.fs.g, fp.clust);
    res := IntErr;
    if base == 0 { return; }
    sect := base + csect;
    res := Ok;
  }

  /** On the sector found: whole sectors directly, or part of one through the buffer. */
  method TakeAtSector(fp: File, buff: array<Byte>, off: nat, btr: nat, sect: Dword, csect: nat) returns (res: FResult, rcnt: nat)
    requires fp.Placed() && Clean(fp.fs.g, DevOf(fp.fs), fp.View()) && SectorReady(fp.fs.g, DevOf(fp.fs), fp.View(), sect, csect)
    requires buff != fp.buf && buff != fp.fs.win && 0 < btr <= fp.objsize - fp.fptr && off + btr <= buff.Length
    modifies fp`fptr, fp`sect, fp`dirty, fp.buf, buff, fp.fs`disk, fp.fs`faults, fp.fs`lostWrites
    ensures fp.Placed() && fp.Data() == old(fp.Data()) && fp.fs.Fat() == old(fp.fs.Fat())
    ensures res == Ok || (res == DiskErr && fp.fs.faults > old(fp.fs.faults))
    ensures old(fp.fs.Log()).Onward(fp.fs.Log())
    ensures old(fp.Kept()).Untouched(fp.Kept())
    ensures OthersKept(fp.fs.g, old(DevOf(fp.fs)), fp.chain, DevOf(fp.fs), fp.chain)
    ensures forall i :: 0 <= i < buff.Length && !(off <= i < off + btr) ==> buff[i] == old(buff[i])
    ensures res == Ok ==> Clean(fp.fs.g, DevOf(fp.fs), fp.View()) && 0 < fp.fs.g.csize && Cursor(fp.fs.g, fp.View())
    ensures res == Ok ==> 0 < rcnt <= btr && fp.fptr == old(fp.fptr) + rcnt
    ensures res == Ok ==> buff[off..off + rcnt] == fp.Data()[old(fp.fptr)..fp.fptr]
    ensures res != Ok ==> fp.fptr == old(fp.fptr)
    ensures res == Ok && old(Holds(fp.fs.g, fp.chain, fp.sect)) ==> Holds(fp.fs.g, fp.chain, fp.sect)
  {
    hide FatFs.FsInfoTold, FatFs.Valid, FatFs.Fat, FatFs.Logical, Laid, Clean, Sectors, BytesOf, Cursor, OthersKept, Holds, SectorReady,
         OnCluster, OnSector;
    rcnt := 0;
    ghost var g, d, f := fp.fs.g, DevOf(fp.fs), fp.View();
    NothingChanged(g, d, fp.chain);
    ReadySector(g, d, f, sect, csect);
    var cc := btr / 512;
    if cc > 0 {
      if csect + cc > fp.fs.g.csize {
        cc := fp.fs.g.csize - csect;
      }
      res := ReadSectors(fp, buff, off, sect, csect, cc);
      StoreOthers(g, d, fp.chain, DevOf(fp.fs));
      return res, 512 * cc;
    }
    res := LoadSector(fp, sect);
    FlushedOthers(g, d, f, DevOf(fp.fs));
    if res != Ok { return; }
    HoldsSector(g, fp.chain, fp.fptr / 512);
    OnReadySector(g, d, f, fp.View(), sect, csect);
    rcnt := CopyOut(fp, buff, off, btr);
  }

  /** One turn of f_read's loop. */
  method ReadStep(fp: File, buff: array<Byte>, off: nat, btr: nat) returns (res: FResult, rcnt: nat)
    requires fp.Inv() && fp.err == Ok && fp.Placed()
    requires buff != fp.buf && buff != fp.fs.win && 0 < btr <= fp.objsize - fp.fptr && off + btr <= buff.Length
    modifies fp`fptr, fp`clust, fp`sect, fp`dirty, fp.buf, buff,
             fp.fs`disk, fp.fs`wflag, fp.fs`faults, fp.fs`lostWrites, fp.fs`winsect, fp.fs.win
    ensures fp.Placed() && fp.Data() == old(fp.Data()) && fp.fs.Fat() == old(fp.fs.Fat())
    ensures res == Ok || (res == DiskErr && fp.fs.faults > old(fp.fs.faults))
    ensures old(fp.fs.Log()).Onward(fp.fs.Log())
    ensures old(fp.Kept()).Untouched(fp.Kept())
    ensures OthersKept(fp.fs.g, old(DevOf(fp.fs)), fp.chain, DevOf(fp.fs), fp.chain)
    ensures forall i :: 0 <= i < off ==> buff[i] == old(buff[i])
    ensures forall i :: off + btr <= i < buff.Length ==> buff[i] == old(buff[i])
    ensures res == Ok ==> fp.Inv() && 0 < rcnt <= btr && fp.fptr == old(fp.fptr) + rcnt
    ensures res == Ok ==> buff[off..off + rcnt] == fp.Data()[old(fp.fptr)..fp.fptr]
    ensures res != Ok ==> fp.fptr == old(fp.fptr)
    ensures res == Ok && old(Holds(fp.fs.g, fp.chain, fp.sect)) ==> Holds(fp.fs.g, fp.chain, fp.sect)
  {
    hide FatFs.FsInfoTold, FatFs.Valid, FatFs.Fat, FatFs.Logical, Laid, Clean, Sectors, BytesOf, Cursor, DataKept, OthersKept, Holds,
         SectorReady;
    rcnt := 0;
    ghost var g, d := fp.fs.g, DevOf(fp.fs);
    VolumeIsGood(fp.fs);
    NothingChanged(g, d, fp.chain);
    ReadableSector(g, d, fp.View());
    if fp.fptr % 512 == 0 {
      var sect, csect;
      res, sect, csect := SectorForRead(fp);
      ghost var d1 := DevOf(fp.fs);
      WindowOthers(g, d, d1, fp.View());
      if res != Ok { return; }
      res, rcnt := TakeAtSector(fp, buff, off, btr, sect, csect);
      OthersOnward(g, d, fp.chain, d1, fp.chain, DevOf(fp.fs), fp.chain);
    } else {
      CursorParts(g, fp.View());
      SectorOfCluster(g, d, fp.View(), fp.fptr / 512);
      rcnt := CopyOut(fp, buff, off, btr);
      res := Ok;
    }
  }

  // ------------------------------------------------------------- f_read

  /** validate(): the object may have been invalidated by a remount or a removed card. */
  method Validate(fp: File) returns (res: FResult)
    requires fp.Inv()
    modifies fp.fs`alive
    ensures res == if fp.fs.alive then Ok else InvalidObject
    ensures fp.fs.alive ==> old(fp.fs.alive)
    ensures fp.Inv() && (fp.err == Ok ==> fp.Placed() && fp.Data() == old(fp.Data()))
  {
    var gone := *;
    if gone { fp.fs.alive := false; }
    res := if fp.fs.alive then Ok else InvalidObject;
    if fp.err == Ok { FileFacts(fp); }
  }

  /** part is what data holds from position p on. */
  ghost predicate IsSlice(part: seq<Byte>, data: seq<Byte>, p: nat) {
    p + |part| <= |data| && part == data[p..p + |part|]
  }

  /** One turn behind the br bytes read so far, the first of them from position p. */
  method ReadOn(fp: File, buff: array<Byte>, n: nat, br: nat, ghost p: nat) returns (res: FResult, br': nat)
    requires fp.Inv() && fp.err == Ok && fp.Placed() && buff != fp.buf && buff != fp.fs.win && br < n <= buff.Length
    requires fp.fptr == p + br && p + n <= fp.objsize && IsSlice(buff[..br], fp.Data(), p)
    modifies fp`fptr, fp`clust, fp`sect, fp`dirty, fp.buf, buff,
             fp.fs`disk, fp.fs`wflag, fp.fs`faults, fp.fs`lostWrites, fp.fs`winsect, fp.fs.win
    ensures fp.Placed() && fp.Data() == old(fp.Data()) && fp.fs.Fat() == old(fp.fs.Fat())
    ensures old(fp.fs.Log()).Onward(fp.fs.Log()) && OthersKept(fp.fs.g, old(DevOf(fp.fs)), fp.chain, DevOf(fp.fs), fp.chain)
    ensures old(fp.Kept()).Untouched(fp.Kept())
    ensures res == Ok && old(Holds(fp.fs.g, fp.chain, fp.sect)) ==> Holds(fp.fs.g, fp.chain, fp.sect)
    ensures forall i :: n <= i < buff.Length ==> buff[i] == old(buff[i])
    ensures br <= br' <= n && fp.fptr == p + br' && IsSlice(buff[..br'], fp.Data(), p)
    ensures if res == Ok then fp.Inv() && br < br' else br' == br && res == DiskErr && fp.fs.faults > old(fp.fs.faults)
  {
    hide FatFs.FsInfoTold, FatFs.Valid, FatFs.Fat, FatFs.Logical, Laid, Clean, Sectors, BytesOf, Cursor, OthersKept, Holds, DevOf;
    ghost var got := buff[..br];
    var rcnt;
    res, rcnt := ReadStep(fp, buff, br, n - br);
    assert buff[..br] == got;
    br' := br;
    if res == Ok {
      SliceGrows(got, buff[br..br + rcnt], fp.Data(), p);
      assert got + buff[br..br + rcnt] == buff[..br + rcnt];
      br' := br + rcnt;
    }
  }

  /** The loop of f_read, for n bytes that the file has. */
  method ReadLoop(fp: File, buff: array<Byte>, n: nat) returns (res: FResult, br: nat)
    requires fp.Inv() && fp.err == Ok && fp.Placed() && fp.fptr + n <= fp.objsize
    requires buff != fp.buf && buff != fp.fs.win && n <= buff.Length
    modifies fp`fptr, fp`clust, fp`sect, fp`dirty, fp`err, fp.buf, buff,
             fp.fs`disk, fp.fs`wflag, fp.fs`faults, fp.fs`lostWrites, fp.fs`winsect, fp.fs.win
    ensures fp.Inv() && fp.Placed() && fp.Data() == old(fp.Data()) && fp.fs.Fat() == old(fp.fs.Fat())
    ensures OthersKept(fp.fs.g, old(DevOf(fp.fs)), fp.chain, DevOf(fp.fs), fp.chain)
    ensures br <= n && fp.fptr == old(fp.fptr) + br
    ensures IsSlice(buff[..br], fp.Data(), old(fp.fptr))
    ensures forall i :: n <= i < buff.Length ==> buff[i] == old(buff[i])
    ensures fp.err == res && old(fp.fs.Log()).Onward(fp.fs.Log())
    ensures old(fp.Kept()).Untouched(fp.Kept())
    ensures res == Ok && old(Holds(fp.fs.g, fp.chain, fp.sect)) ==> Holds(fp.fs.g, fp.chain, fp.sect)
    ensures (res == Ok && br == n) || (res == DiskErr && fp.fs.faults > old(fp.fs.faults))
  {
    hide FatFs.Valid, FatFs.Fat, FatFs.Logical, Laid, Clean, Sectors, BytesOf, Cursor, OthersKept, Holds, DevOf,
         File.Pending, FatFs.FsInfoTold;
    ghost var data, fat, g, d := fp.Data(), fp.fs.Fat(), fp.fs.g, DevOf(fp.fs);
    VolumeIsGood(fp.fs);
    NothingChanged(g, d, fp.chain);
    br, res := 0, Ok;
    assert buff[..0] == [];
    while br < n
      invariant fp.Inv() && fp.err == Ok == res && fp.Placed()
      invariant fp.Data() == data && fp.fs.Fat() == fat
      invariant old(fp.fs.Log()).Onward(fp.fs.Log()) && OthersKept(g, d, fp.chain, DevOf(fp.fs), fp.chain)
      invariant old(Holds(fp.fs.g, fp.chain, fp.sect)) ==> Holds(fp.fs.g, fp.chain, fp.sect)
      invariant old(fp.Kept()).Untouched(fp.Kept())
      invariant br <= n && fp.fptr == old(fp.fptr) + br
      invariant IsSlice(buff[..br], data, old(fp.fptr))
      invariant forall i :: n <= i < buff.Length ==> buff[i] == old(buff[i])
      decreases n - br
    {
      ghost var d1 := DevOf(fp.fs);
      res, br := ReadOn(fp, buff, n, br, old(fp.fptr));
      OthersOnward(g, d, fp.chain, d1, fp.chain, DevOf(fp.fs), fp.chain);
      if res != Ok {
        fp.err := res;
        return;
      }
    }
  }

  method Read(fp: File, buff: array<Byte>, btr: Dword) returns (res: FResult, br: nat)
    requires fp.Inv() && buff != fp.buf && buff != fp.fs.win && btr <= buff.Length
    modifies fp`fptr, fp`clust, fp`sect, fp`dirty, fp`err, fp.buf, buff,
             fp.fs`alive, fp.fs`disk, fp.fs`wflag, fp.fs`faults, fp.fs`lostWrites, fp.fs`winsect, fp.fs.win
    ensures if fp.fs.alive then old(fp.fs.alive) else res == InvalidObject
    ensures fp.Inv() && old(fp.fs.Log()).Onward(fp.fs.Log())
    // the file itself never changes, whatever happens
    ensures old(fp.err) == Ok ==> fp.Placed() && fp.Data() == old(fp.Data()) && fp.fs.Fat() == old(fp.fs.Fat())
    // nothing is written unless something had to be
    ensures old(fp.Kept()).Untouched(fp.Kept())
    // other files keep their chains and their sectors
    ensures old(fp.err) == Ok ==> OthersKept(fp.fs.g, old(DevOf(fp.fs)), fp.chain, DevOf(fp.fs), fp.chain)
    // the bytes reported are the file's bytes from the old position on
    ensures br <= btr && fp.fptr == old(fp.fptr) + br
    ensures old(fp.err) == Ok ==> IsSlice(buff[..br], fp.Data(), old(fp.fptr))
    ensures forall i :: btr <= i < buff.Length ==> buff[i] == old(buff[i])
    ensures res == Ok && old(Holds(fp.fs.g, fp.chain, fp.sect)) ==> Holds(fp.fs.g, fp.chain, fp.sect)
    // they are all that was asked for, up to the end of the file, unless a call fails, and why
    ensures
      || (res == InvalidObject && !fp.fs.alive && br == 0 && fp.err == old(fp.err))
      || (res == old(fp.err) != Ok && br == 0 && fp.err == old(fp.err))
      || (res == Denied && !fp.canRead && br == 0 && fp.err == old(fp.err) == Ok)
      || (res == Ok == fp.err == old(fp.err) && fp.canRead && br == Min(btr, fp.objsize - old(fp.fptr)))
      || (res == DiskErr == fp.err && old(fp.err) == Ok && fp.canRead && fp.fs.faults > old(fp.fs.faults))
  {
    hide FatFs.FsInfoTold, FatFs.Valid, FatFs.Fat, FatFs.Logical, Laid, Clean, Sectors, BytesOf, Cursor, OthersKept, Holds;
    br := 0;
    if fp.err == Ok {
      FileFacts(fp);
      NothingChanged(fp.fs.g, DevOf(fp.fs), fp.chain);
    }
    res := Validate(fp);
    if res != Ok { return; }
    if fp.err != Ok { return fp.err, 0; }
    if !fp.canRead { return Denied, 0; }
    res, br := ReadLoop(fp, buff, Min(btr, fp.objsize - fp.fptr));
  }

  lemma SliceGrows(a: seq<Byte>, b: seq<Byte>, data: seq<Byte>, p: nat)
    requires IsSlice(a, data, p) && IsSlice(b, data, p + |a|)
    ensures IsSlice(a + b, data, p)
  {
  }

  lemma FileFacts(fp: File)
    requires fp.Inv() && fp.err == Ok
    ensures fp.Placed() && fp.fptr <= fp.objsize && 0 < fp.fs.g.csize
    ensures |fp.Data()| == fp.objsize
  {
  }
}
