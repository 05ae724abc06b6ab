/**
 Cutting a file at the file pointer (ff.c, f_truncate).
 */
module FileTruncate {
  import opened Bytes
  import opened Volume
  import opened Window
  import opened FatEntries
  import opened Chains
  import opened Allocation
  import opened FatRuns
  import opened Layout
  import opened FileState
  import opened FileRead
  import opened FileWrite
  import opened FileSeek

  /** Clusters that hold the first n bytes. */
  function ClustersFor(g: Geometry, n: nat): nat
    requires 0 < g.csize
  {
    if n == 0 then 0 else (n - 1) / 512 / g.csize + 1
  }

  /** That is n divided by the cluster size, rounded up. */
  lemma ClustersForIsCeiling(g: Geometry, n: nat)
    requires 0 < g.csize
    ensures n <= 512 * g.csize * ClustersFor(g, n) < n + 512 * g.csize
  {
    if n > 0 {
      var q := (n - 1) / 512 / g.csize;
      InClusterIntro(g, n, q);
      var b := 512 * g.csize;
      assert b * (q + 1) == b * q + b;
    }
  }

  /** The table after the chain was cut behind its first m clusters. */
  ghost function CutTable(fat: seq<nat>, chain: seq<nat>, m: nat, eoc: nat): (f: seq<nat>)
    requires m <= |chain| && (chain != [] ==> IsChain(fat, chain))
    ensures |f| == |fat|
  {
    if m == |chain| then fat else Cut(fat, chain, m, eoc)
  }

  lemma CutChain(fat: seq<nat>, chain: seq<nat>, m: nat, eoc: nat)
    requires m <= |chain| && (chain != [] ==> IsChain(fat, chain)) && eoc >= |fat|
    ensures m > 0 ==> IsChain(CutTable(fat, chain, m, eoc), chain[..m])
    ensures forall c :: 0 <= c < |fat| && c !in chain ==> CutTable(fat, chain, m, eoc)[c] == fat[c]
    ensures forall c :: c in chain[..m] ==> c in chain
    ensures forall c :: 2 <= c < |fat| && CutTable(fat, chain, m, eoc)[c] == 0 ==> c in chain || fat[c] == 0
  {
    if m == |chain| {
      assert chain[..m] == chain;
    } else if m > 0 {
      CutKeepsPrefix(fat, chain, m, eoc);
    }
  }

  lemma TruncatedOthers(g: Geometry, d: Dev, d': Dev, chain: seq<nat>, m: nat)
    requires |d'.fat| == |d.fat| == g.nFatent && g.fatbase + g.FatArea() <= g.database
    requires m <= |chain| && DataKept(g, d.disk, d.winsect, d'.disk, d'.winsect)
    requires forall c :: 0 <= c < |d.fat| && c !in chain ==> d'.fat[c] == d.fat[c]
    requires OutsideFatSame(g, d.view, d'.view) && d.log.Onward(d'.log)
    requires d'.log.torn == d.log.torn ==> TableKept(d.fat, chain, d'.fat, chain[..m])
    ensures OthersKept(g, d, chain, d', chain[..m])
  {
    hide TableKept;
    assert forall c :: c in chain[..m] ==> c in chain;
    FatChangedForChain(g, d, chain, d', chain[..m]);
  }

  /** The remove_chain call: the chain is cut behind its first m clusters. */
  method FreeBehind(fs: FatFs, clst: Dword, pclst: Dword, ghost chain: seq<nat>, ghost m: nat) returns (res: FResult)
    requires fs.Valid() && IsChain(fs.Fat(), chain) && m < |chain| && clst == chain[m] && pclst == if m == 0 then 0 else chain[m - 1]
    modifies fs`disk, fs`wflag, fs`faults, fs`lostWrites, fs`winsect, fs.win, fs`freeClst, fs`torn, fs`fsiFlag
    ensures fs.Valid() && old(fs.Log()).Onward(fs.Log()) && |fs.disk| == |old(fs.disk)|
    ensures DataKept(fs.g, old(fs.disk), old(fs.winsect), fs.disk, fs.winsect)
    ensures res == Ok || (res == DiskErr && fs.faults > old(fs.faults))
    ensures res == Ok ==> fs.Fat() == CutTable(old(fs.Fat()), chain, m, EndMark(fs))
    ensures forall c :: 0 <= c < fs.g.nFatent && c !in chain ==> fs.Fat()[c] == old(fs.Fat())[c]
    ensures OutsideFatSame(fs.g, old(fs.Logical()), fs.Logical())
    ensures fs.torn == old(fs.torn) ==>
              TableKept(old(fs.Fat()), chain, fs.Fat(), chain) && TableKept(old(fs.Fat()), chain, fs.Fat(), chain[..m])
    ensures res == Ok && old(FreeOk(fs)) ==> FreeOk(fs)
  {
    hide FatFs.FsInfoTold, FatFs.Valid, FatFs.Fat, FatFs.Logical, FatFs.Image, DataKept, FreeCount, IsChain, Unlink, CutTable, TableKept,
         RemoveStep, OutsideFatSame;
    ghost var fat, eoc := fs.Fat(), EndMark(fs);
    TableSize(fs);
    EocEndsChain(fs.g, EOC);
    CutIsRemoval(fat, chain, m, eoc);
    res := RemoveChain(fs, clst, pclst);
    KeptSize(fs.g, old(fs.disk), old(fs.winsect), fs.disk, fs.winsect);
    if fs.torn == old(fs.torn) {
      CutTableKept(fat, fs.Fat(), eoc, clst, pclst, chain, chain);
      CutTableKept(fat, fs.Fat(), eoc, clst, pclst, chain, chain[..m]);
    }
  }

  lemma TableSize(fs: FatFs)
    requires fs.Valid()
    ensures |fs.Fat()| == fs.g.nFatent < 0x1000_0000
    ensures fs.g.nFatent <= MaxClusters(fs.g.fsType) + 2
  {
  }

  /** The table part of f_truncate: free what lies behind the position. */
  method TruncateChain(fp: File) returns (res: FResult)
    requires fp.Placed() && fp.fptr < fp.objsize && 0 < fp.fs.g.csize
    requires fp.fptr > 0 ==> OnCluster(fp.fs.g, fp.View(), (fp.fptr - 1) / 512)
    modifies fp.fs`disk, fp.fs`wflag, fp.fs`faults, fp.fs`lostWrites, fp.fs`winsect, fp.fs.win, fp.fs`freeClst, fp.fs`torn, fp.fs`fsiFlag
    ensures fp.Shaped() && old(fp.fs.Log()).Onward(fp.fs.Log())
    ensures DataKept(fp.fs.g, old(fp.fs.disk), old(fp.fs.winsect), fp.fs.disk, fp.fs.winsect)
    ensures res == Ok || (res == DiskErr && fp.fs.faults > old(fp.fs.faults))
    ensures var m := ClustersFor(fp.fs.g, fp.fptr);
            && m <= |fp.chain| && (fp.chain != [] ==> IsChain(old(fp.fs.Fat()), fp.chain))
            && (res == Ok ==> fp.fs.Fat() == CutTable(old(fp.fs.Fat()), fp.chain, m, EndMark(fp.fs)))
            && (fp.fs.torn == old(fp.fs.torn) ==>
                  TableKept(old(fp.fs.Fat()), fp.chain, fp.fs.Fat(), fp.chain[..m]))
    ensures fp.fs.torn == old(fp.fs.torn) ==> TableKept(old(fp.fs.Fat()), fp.chain, fp.fs.Fat(), fp.chain)
    ensures OutsideFatSame(fp.fs.g, old(fp.fs.Logical()), fp.fs.Logical())
    ensures forall c :: 0 <= c < fp.fs.g.nFatent && c !in fp.chain ==> fp.fs.Fat()[c] == old(fp.fs.Fat())[c]
    ensures res == Ok && old(FreeOk(fp.fs)) ==> FreeOk(fp.fs)
  {
    hide FatFs.FsInfoTold, FatFs.Valid, FatFs.Fat, FatFs.Logical, FatFs.Image, Laid, Sectors, DataKept, FreeCount, IsChain, CutTable,
         TableKept, ClustersFor;
    ghost var g, d, f, fat, chain := fp.fs.g, DevOf(fp.fs), fp.View(), fp.fs.Fat(), fp.chain;
    ghost var m := ClustersFor(g, fp.fptr);
    VolumeIsGood(fp.fs);
    CutPoint(g, d, f);
    if fp.fptr == 0 {
      res := FreeBehind(fp.fs, fp.sclust, 0, chain, 0);
    } else {
      var ncl := GetFat(fp.fs, fp.clust);
      res := Ok;
      if ncl == DISK_ERROR { res := DiskErr; }
      if ncl == 1 { res := IntErr; }
      ghost var d1 := DevOf(fp.fs);
      if res == Ok && ncl < fp.fs.g.nFatent {
        res := FreeBehind(fp.fs, ncl, fp.clust, chain, m);
        DataKeptTwice(g, d.disk, d.winsect, d1.disk, d1.winsect, fp.fs.disk, fp.fs.winsect);
      } else {
        NothingCut(fat, chain, m, EndMark(fp.fs));
      }
    }
    if fp.dirty { BufferClear(g, d, DevOf(fp.fs), fp.sect); }
  }

  lemma NothingCut(fat: seq<nat>, chain: seq<nat>, m: nat, eoc: nat)
    requires 0 < m <= |chain| && IsChain(fat, chain)
    ensures m == |chain| ==> CutTable(fat, chain, m, eoc) == fat
    ensures TableKept(fat, chain, fat, chain) && TableKept(fat, chain, fat, chain[..m])
  {
    assert m == |chain| ==> chain[..m] == chain;
  }

  /** remove_chain with these arguments is the cut. */
  lemma CutIsRemoval(fat: seq<nat>, chain: seq<nat>, m: nat, eoc: nat)
    requires IsChain(fat, chain) && m < |chain| && eoc >= |fat|
    ensures 2 <= chain[m] < |fat| && (m > 0 ==> 2 <= chain[m - 1] < |fat| && fat[chain[m - 1]] != 0)
    ensures Unlink(Severed(fat, if m == 0 then 0 else chain[m - 1], eoc), chain[m]) == Removed(CutTable(fat, chain, m, eoc))
    ensures forall c :: 0 <= c < |fat| && c !in chain ==> CutTable(fat, chain, m, eoc)[c] == fat[c]
    ensures m > 0 ==> chain[m - 1] in chain && fat[chain[m - 1]] == chain[m]
    ensures fat[chain[m]] != 0 && 2 <= chain[0] < |fat|
  {
    ChainAllocated(fat, chain);
    assert chain[0] in chain && chain[m] in chain && (m > 0 ==> chain[m - 1] in chain);
    RemovalIsCut(fat, chain, m, eoc);
    CutChain(fat, chain, m, eoc);
  }

  /** Where f_truncate cuts. */
  lemma CutPoint(g: Geometry, d: Dev, f: FileView)
    requires Laid(g, d, f) && f.fptr < f.objsize && 0 < g.csize
    requires f.fptr > 0 ==> OnCluster(g, f, (f.fptr - 1) / 512)
    ensures f.chain != [] && f.sclust == f.chain[0] && IsChain(d.fat, f.chain)
    ensures var m := ClustersFor(g, f.fptr);
            && m <= |f.chain| && (m == 0 <==> f.fptr == 0)
            && (m > 0 ==> f.clust == f.chain[m - 1] && 2 <= f.clust < g.nFatent)
            && (0 < m < |f.chain| ==> d.fat[f.clust] == f.chain[m] && 2 <= f.chain[m] < g.nFatent)
            && (0 < m == |f.chain| ==> d.fat[f.clust] >= g.nFatent)
    ensures 2 <= f.sclust < g.nFatent < 0x1000_0000 && f.clust >= 0
    ensures forall c :: c in f.chain ==> 2 <= c < g.nFatent
  {
    hide Sectors, PowerOfTwo;
    SectorsLength(g, f.chain);
    assert f.chain != [];
    ChainAllocated(d.fat, f.chain);
    assert f.chain[0] in f.chain;
    var m := ClustersFor(g, f.fptr);
    if m > 0 { assert f.chain[m - 1] in f.chain; }
    if 0 < m < |f.chain| { assert f.chain[m] in f.chain; }
  }

  // ------------------------------------------------------------- the file after the cut

  /** The view f_truncate leaves: the chain and the size cut, the buffer written back. */
  ghost function CutView(g: Geometry, f: FileView): FileView
    requires 0 < g.csize && ClustersFor(g, f.fptr) <= |f.chain|
  {
    f.(chain := f.chain[..ClustersFor(g, f.fptr)], objsize := f.fptr,
       sclust := if f.fptr == 0 then 0 else f.sclust, dirty := false)
  }

  lemma CutFile(g: Geometry, d: Dev, d': Dev, f: FileView, eoc: nat)
    requires Laid(g, d, f) && f.fptr <= f.objsize && eoc >= |d.fat| && GoodVolume(g, d')
    requires ClustersFor(g, f.fptr) <= |f.chain| && f.chain != [] && IsChain(d.fat, f.chain)
    requires d'.fat == CutTable(d.fat, f.chain, ClustersFor(g, f.fptr), eoc) && |d'.disk| == |d.disk|
    requires d'.winsect !in Sectors(g, f.chain)
    requires forall k :: 0 <= k < |Sectors(g, f.chain)| && Sectors(g, f.chain)[k] < |d.disk| ==>
               d'.disk[Sectors(g, f.chain)[k]] == SectorView(d.disk, Sectors(g, f.chain)[k], f.dirty, f.sect, f.buf)
    ensures Laid(g, d', CutView(g, f))
    ensures BytesOf(g, d', CutView(g, f)) == BytesOf(g, d, f)[..f.fptr]
  {
    hide IsChain, PowerOfTwo, CutTable, Sectors;
    var f' := CutView(g, f);
    var m := ClustersFor(g, f.fptr);
    CutChain(d.fat, f.chain, m, eoc);
    SectorsPrefix(g, f.chain, m);
    FileSectors(g, d, f);
    SectorsLength(g, f'.chain);
    ClustersForIsCeiling(g, f.fptr);
    ClusterBytes(g.csize, m);
    var s, s' := Sectors(g, f.chain), Sectors(g, f'.chain);
    assert Between(s, 0, |d'.disk|) && Between(s', 0, |d'.disk|);
    CutDir(g, d, d', f, m, eoc);
    ChainSectors(g, d'.fat, f'.chain);
    SameView(d.disk, s, f.dirty, f.sect, f.buf, d'.disk, s', false, f.sect, f.buf, f.fptr);
    assert Content(d.disk, s, f.dirty, f.sect, f.buf, f.fptr) == BytesOf(g, d, f)[..f.fptr];
  }

  lemma ClusterBytes(c: nat, m: nat)
    ensures 512 * c * m == 512 * (m * c)
  {
  }

  /** Freed clusters were the file's own, so the directory entry is not in them. */
  lemma CutDir(g: Geometry, d: Dev, d': Dev, f: FileView, m: nat, eoc: nat)
    requires |d.fat| == |d'.fat| == g.nFatent && eoc >= |d.fat|
    requires DirPlaced(g, d.fat, f.chain, f.dirSect) && m <= |f.chain| && f.chain != [] && IsChain(d.fat, f.chain)
    requires d'.fat == CutTable(d.fat, f.chain, m, eoc)
    ensures DirPlaced(g, d'.fat, f.chain[..m], f.dirSect)
  {
    hide IsChain, CutTable, Sectors, Run;
    CutChain(d.fat, f.chain, m, eoc);
    SectorsPrefix(g, f.chain, m);
    forall c | 2 <= c < g.nFatent && d'.fat[c] == 0 ensures f.dirSect !in Run(g, c) {
      if c in f.chain && f.dirSect in Run(g, c) {
        var q :| 0 <= q < |f.chain| && f.chain[q] == c;
        AmongSectors(g, f.chain, q, f.dirSect);
      }
    }
    assert f.dirSect !in Sectors(g, f.chain[..m]);
  }

  lemma CutCursor(g: Geometry, f: FileView)
    requires 0 < g.csize && Cursor(g, f) && ClustersFor(g, f.fptr) <= |f.chain|
    ensures Cursor(g, CutView(g, f))
  {
    var m := ClustersFor(g, f.fptr);
    SectorsPrefix(g, f.chain, m);
    SectorsLength(g, f.chain[..m]);
    if f.fptr % 512 != 0 {
      assert (f.fptr - 1) / 512 == f.fptr / 512;
      BlockBound(f.fptr / 512, g.csize, m);
    }
  }

  // ------------------------------------------------------------- f_truncate

  /** Writing back a buffer that may belong to a cluster just freed. */
  lemma OwnWriteAfterCut(g: Geometry, d: Dev, d1: Dev, d2: Dev, chain: seq<nat>, chain': seq<nat>, write: bool, sect: nat)
    requires OthersKept(g, d, chain, d1, chain') && OnlySector(d1, d2, write, sect) && (write ==> sect in Sectors(g, chain))
    requires forall i :: 0 <= i < |chain| ==> 2 <= chain[i] < g.nFatent
    requires g.fatbase + g.FatArea() <= g.database && |d.disk| <= 0xFFFF_FFFF
    ensures OthersKept(g, d, chain, d2, chain')
  {
    hide Sectors, TableKept;
    OwnSectorsOnly(g, d1, chain, d2);
    forall c | 2 <= c < |d.fat| && d.fat[c] != 0 && c !in chain
      ensures d2.fat[c] == d.fat[c] && RunKeptBut(g, c, d, d2, -1)
    {
      assert RunKeptBut(g, c, d, d1, -1) && RunKeptBut(g, c, d1, d2, -1);
      RunOnward(g, c, d, d1, d2, -1);
    }
  }

  /** The file's sectors before and after the cut and the write-back show the same bytes. */
  lemma CutSectors(g: Geometry, d: Dev, d1: Dev, disk2: seq<Sector>, f: FileView)
    requires Laid(g, d, f) && DataKept(g, d.disk, d.winsect, d1.disk, d1.winsect) && |disk2| == |d1.disk|
    requires forall s :: 0 <= s < |disk2| && !(f.dirty && s == f.sect) ==> disk2[s] == d1.disk[s]
    requires f.dirty && f.sect < |disk2| ==> disk2[f.sect] == f.buf
    ensures d1.winsect !in Sectors(g, f.chain)
    ensures forall k :: 0 <= k < |Sectors(g, f.chain)| && Sectors(g, f.chain)[k] < |d.disk| ==>
              disk2[Sectors(g, f.chain)[k]] == SectorView(d.disk, Sectors(g, f.chain)[k], f.dirty, f.sect, f.buf)
  {
    hide Sectors, IsChain, PowerOfTwo;
    FileSectors(g, d, f);
    var s := Sectors(g, f.chain);
    forall k | 0 <= k < |s| ensures s[k] != d1.winsect && disk2[s[k]] == SectorView(d.disk, s[k], f.dirty, f.sect, f.buf) {
      assert g.database <= s[k] < |d.disk| && s[k] != d.winsect;
    }
  }

  lemma CutClean(g: Geometry, d: Dev, d1: Dev, d2: Dev, f: FileView)
    requires Laid(g, d, f) && Clean(g, d, f) && DataKept(g, d.disk, d.winsect, d1.disk, d1.winsect)
    requires OnlySector(d1, d2, f.dirty, f.sect) && (f.dirty && f.sect < |d2.disk| ==> d2.disk[f.sect] == f.buf)
    ensures f.dirty ==> g.database <= f.sect < |d2.disk| && f.sect != d1.winsect
    ensures Clean(g, d2, f.(dirty := false))
  {
    hide Sectors, IsChain, PowerOfTwo;
    FileSectors(g, d, f);
  }

  /** "write back the buffer if dirty", without regard to where its sector now belongs. */
  method WriteBack(fp: File) returns (ok: bool)
    requires fp.Shaped()
    modifies fp`dirty, fp.fs`disk, fp.fs`faults, fp.fs`lostWrites
    ensures fp.Shaped() && fp.fs.Fat() == old(fp.fs.Fat())
    ensures fp.fs.faults == old(fp.fs.faults) + (if ok then 0 else 1) && old(fp.fs.Log()).Onward(fp.fs.Log())
    ensures fp.fs.refuses ==> fp.fs.disk == old(fp.fs.disk)
    ensures OnlySector(old(DevOf(fp.fs)), DevOf(fp.fs), old(fp.dirty), fp.sect)
    ensures ok ==> !fp.dirty && (old(fp.dirty) && fp.sect < |fp.fs.disk| ==> fp.fs.disk[fp.sect] == fp.buf[..])
    ensures !ok ==> old(fp.dirty) && fp.dirty
    ensures old(fp.dirty) && fp.fs.refuses ==> !ok
  {
    hide FatFs.FsInfoTold, FatFs.Valid, FatFs.Fat, FatFs.Logical;
    VolumeIsGood(fp.fs);
    ok := true;
    if fp.dirty {
      ok := WriteData(fp.fs, fp.buf, 0, fp.sect, 1);
      assert ok ==> fp.fs.disk[fp.sect] == fp.buf[..] by {
        assert fp.buf[0..512] == fp.buf[..];
      }
      if ok { fp.dirty := false; }
    }
  }

  /** The buffer part of f_truncate, on the file as the cut has left it. */
  method SettleBuffer(fp: File, ghost d: Dev, ghost f: FileView) returns (res: FResult)
    requires fp.Shaped() && 0 < fp.fs.g.csize && Laid(fp.fs.g, d, f) && Clean(fp.fs.g, d, f) && Cursor(fp.fs.g, f)
    requires f.fptr < f.objsize && f.chain != [] && IsChain(d.fat, f.chain) && ClustersFor(fp.fs.g, f.fptr) <= |f.chain|
    requires fp.View() == CutView(fp.fs.g, f).(dirty := f.dirty)
    requires fp.fs.Fat() == CutTable(d.fat, f.chain, ClustersFor(fp.fs.g, f.fptr), EndMark(fp.fs))
    requires DataKept(fp.fs.g, d.disk, d.winsect, fp.fs.disk, fp.fs.winsect)
    requires OthersKept(fp.fs.g, d, f.chain, DevOf(fp.fs), fp.chain)
    modifies fp`dirty, fp.fs`disk, fp.fs`faults, fp.fs`lostWrites
    ensures fp.Shaped() && old(fp.fs.Log()).Onward(fp.fs.Log()) && fp.fs.Fat() == old(fp.fs.Fat())
    ensures OthersKept(fp.fs.g, d, f.chain, DevOf(fp.fs), fp.chain)
    ensures res == Ok ==> !fp.dirty
    ensures res == Ok || (res == DiskErr && fp.fs.faults > old(fp.fs.faults))
    ensures res == Ok ==> fp.Placed() && Clean(fp.fs.g, DevOf(fp.fs), fp.View()) && Cursor(fp.fs.g, fp.View())
    ensures res == Ok ==> f.fptr <= |BytesOf(fp.fs.g, d, f)| && fp.Data() == BytesOf(fp.fs.g, d, f)[..f.fptr]
  {
    hide FatFs.FsInfoTold, FatFs.Valid, FatFs.Fat, FatFs.Logical, Laid, Clean, Sectors, BytesOf, Cursor, OthersKept, CutTable, IsChain,
         DataKept;
    ghost var g, d1 := fp.fs.g, DevOf(fp.fs);
    BufferSector(g, d, d1, f);
    var ok := WriteBack(fp);
    ghost var d2 := DevOf(fp.fs);
    BufferWriteOthers(g, d, d1, d2, f, fp.chain);
    if !ok { return DiskErr; }
    VolumeIsGood(fp.fs);
    EocEndsChain(g, EOC);
    FileAfterCut(g, d, d1, d2, f, EndMark(fp.fs));
    assert fp.View() == CutView(g, f);
    res := Ok;
  }

  /** The cut of the table, as the other files see it. */
  method TruncateTable(fp: File) returns (res: FResult)
    requires fp.Placed() && fp.fptr < fp.objsize && 0 < fp.fs.g.csize
    requires fp.fptr > 0 ==> OnCluster(fp.fs.g, fp.View(), (fp.fptr - 1) / 512)
    modifies fp.fs`disk, fp.fs`wflag, fp.fs`faults, fp.fs`lostWrites, fp.fs`winsect, fp.fs.win, fp.fs`freeClst, fp.fs`torn, fp.fs`fsiFlag
    ensures fp.Shaped() && old(fp.fs.Log()).Onward(fp.fs.Log())
    ensures DataKept(fp.fs.g, old(fp.fs.disk), old(fp.fs.winsect), fp.fs.disk, fp.fs.winsect)
    ensures res == Ok || (res == DiskErr && fp.fs.faults > old(fp.fs.faults))
    ensures var m := ClustersFor(fp.fs.g, fp.fptr);
            && m <= |fp.chain| && fp.chain != [] && IsChain(old(fp.fs.Fat()), fp.chain)
            && (res == Ok ==> fp.fs.Fat() == CutTable(old(fp.fs.Fat()), fp.chain, m, EndMark(fp.fs)))
            && OthersKept(fp.fs.g, old(DevOf(fp.fs)), fp.chain, DevOf(fp.fs), if res == Ok then fp.chain[..m] else fp.chain)
    ensures res == Ok && old(FreeOk(fp.fs)) ==> FreeOk(fp.fs)
  {
    hide FatFs.FsInfoTold, FatFs.Valid, FatFs.Fat, FatFs.Logical, Laid, Sectors, OthersKept, FreeCount, CutTable, IsChain, DataKept,
         TableKept, ClustersFor, OnCluster, OutsideFatSame, GoodVolume;
    ghost var g, d := fp.fs.g, DevOf(fp.fs);
    ghost var m := ClustersFor(g, fp.fptr);
    CutPoint(g, d, fp.View());
    GoodArea(g, d, fp.View());
    res := TruncateChain(fp);
    assert fp.chain[..|fp.chain|] == fp.chain;
    TruncatedOthers(g, d, DevOf(fp.fs), fp.chain, if res == Ok then m else |fp.chain|);
  }

  lemma GoodArea(g: Geometry, d: Dev, f: FileView)
    requires Laid(g, d, f)
    ensures |d.fat| == g.nFatent && g.fatbase + g.FatArea() <= g.database
  {
  }

  /** The fields: the size, and no first cluster if nothing is left. */
  method EndHere(fp: File)
    requires fp.Shaped()
    modifies fp`sclust, fp`objsize, fp`modified
    ensures fp.Shaped() && fp.modified
    ensures fp.View() == old(fp.View()).(objsize := fp.fptr, sclust := if fp.fptr == 0 then 0 else old(fp.sclust))
  {
    hide FatFs.Valid;
    if fp.fptr == 0 { fp.sclust := 0; }
    fp.objsize := fp.fptr;
    fp.modified := true;
  }

  /** The part of f_truncate for a position before the end. */
  method TruncateHere(fp: File) returns (res: FResult)
    requires fp.Inv() && fp.err == Ok && fp.Placed() && fp.fptr < fp.objsize && 0 < fp.fs.g.csize
    modifies fp`chain, fp`sclust, fp`objsize, fp`modified, fp`dirty,
             fp.fs`disk, fp.fs`wflag, fp.fs`faults, fp.fs`lostWrites, fp.fs`winsect, fp.fs.win, fp.fs`freeClst, fp.fs`torn, fp.fs`fsiFlag
    ensures fp.Shaped() && old(fp.fs.Log()).Onward(fp.fs.Log())
    ensures OthersKept(fp.fs.g, old(DevOf(fp.fs)), old(fp.chain), DevOf(fp.fs), fp.chain)
    ensures res == Ok || (res == DiskErr && fp.fs.faults > old(fp.fs.faults))
    ensures res == Ok ==> fp.Inv() && fp.Placed() && fp.Data() == old(fp.Data())[..fp.fptr] && fp.objsize == fp.fptr
    ensures fp.modified
    ensures ClustersFor(fp.fs.g, fp.fptr) <= |old(fp.chain)|
    ensures res == Ok ==> fp.chain == old(fp.chain)[..ClustersFor(fp.fs.g, fp.fptr)]
    ensures res == Ok ==> !fp.dirty && forall q :: ClustersFor(fp.fs.g, fp.fptr) <= q < |old(fp.chain)| ==>
              2 <= old(fp.chain)[q] < fp.fs.g.nFatent && fp.fs.Fat()[old(fp.chain)[q]] == 0
    ensures res == Ok && old(FreeOk(fp.fs)) ==> FreeOk(fp.fs)
  {
    hide FatFs.FsInfoTold, FatFs.Valid, FatFs.Fat, FatFs.Logical, Laid, Clean, Sectors, BytesOf, Cursor, OthersKept, FreeCount, CutTable,
         IsChain, DataKept, OnSector, TableKept, ClustersFor, OnCluster, OutsideFatSame, GoodVolume;
    ghost var g, d, f, chain := fp.fs.g, DevOf(fp.fs), fp.View(), fp.chain;
    ghost var m := ClustersFor(g, fp.fptr);
    VolumeIsGood(fp.fs);
    CursorClusterHere(g, f);
    res := TruncateTable(fp);
    if res == Ok { CutFrees(d.fat, chain, m, EndMark(fp.fs)); }
    EndHere(fp);
    if res != Ok { return; }
    fp.chain := chain[..m];
    BufferSector(g, d, DevOf(fp.fs), f);
    res := SettleBuffer(fp, d, f);
  }

  lemma CutFrees(fat: seq<nat>, chain: seq<nat>, m: nat, eoc: nat)
    requires IsChain(fat, chain) && m <= |chain|
    ensures forall q :: m <= q < |chain| ==> 2 <= chain[q] < |fat| && CutTable(fat, chain, m, eoc)[chain[q]] == 0
  {
    forall q | m <= q < |chain| ensures CutTable(fat, chain, m, eoc)[chain[q]] == 0 {
      assert chain[m..][q - m] == chain[q];
    }
  }

  lemma BufferWriteOthers(g: Geometry, d: Dev, d1: Dev, d2: Dev, f: FileView, chain': seq<nat>)
    requires Laid(g, d, f) && OthersKept(g, d, f.chain, d1, chain')
    requires OnlySector(d1, d2, f.dirty, f.sect)
    ensures OthersKept(g, d, f.chain, d2, chain')
  {
    hide Laid, OthersKept, Sectors, OnlySector;
    OwnClusters(g, d, f);
    BufferOwn(g, d, f);
    OwnWriteAfterCut(g, d, d1, d2, f.chain, chain', f.dirty, f.sect);
  }

  /** The cut and the write-back together leave a sound file with the bytes before the position. */
  lemma FileAfterCut(g: Geometry, d: Dev, d1: Dev, d2: Dev, f: FileView, eoc: nat)
    requires 0 < g.csize && Laid(g, d, f) && Clean(g, d, f) && Cursor(g, f) && f.fptr < f.objsize
    requires eoc >= |d.fat| && GoodVolume(g, d2) && OnlySector(d1, d2, f.dirty, f.sect)
    requires DataKept(g, d.disk, d.winsect, d1.disk, d1.winsect)
    requires f.chain != [] && IsChain(d.fat, f.chain) && ClustersFor(g, f.fptr) <= |f.chain|
    requires d1.fat == CutTable(d.fat, f.chain, ClustersFor(g, f.fptr), eoc)
    requires f.dirty && f.sect < |d2.disk| ==> d2.disk[f.sect] == f.buf
    ensures Laid(g, d2, CutView(g, f)) && Clean(g, d2, CutView(g, f)) && Cursor(g, CutView(g, f))
    ensures BytesOf(g, d2, CutView(g, f)) == BytesOf(g, d, f)[..f.fptr]
  {
    CutFilePart(g, d, f);
    hide Laid, Clean, Sectors, BytesOf, OnCluster, OnSector, DataKept, CutTable, IsChain;
    CutSectors(g, d, d1, d2.disk, f);
    CutClean(g, d, d1, d2, f);
    CutFile(g, d, d2, f, eoc);
    CutCursor(g, f);
    CleanIgnoresCursor(g, d2, f.(dirty := false), CutView(g, f));
  }

  lemma CutFilePart(g: Geometry, d: Dev, f: FileView)
    requires Laid(g, d, f) && Cursor(g, f)
    requires 0 < g.csize
    ensures f.fptr <= f.objsize == |BytesOf(g, d, f)|
  {
  }

  lemma BufferSector(g: Geometry, d: Dev, d1: Dev, f: FileView)
    requires Laid(g, d, f) && DataKept(g, d.disk, d.winsect, d1.disk, d1.winsect)
    ensures f.dirty ==> g.database <= f.sect && f.sect != d1.winsect
  {
    hide Sectors, IsChain, PowerOfTwo;
    FileSectors(g, d, f);
  }

  lemma BufferOwn(g: Geometry, d: Dev, f: FileView)
    requires Laid(g, d, f)
    ensures f.dirty ==> f.sect in Sectors(g, f.chain)
    ensures |d.disk| <= 0xFFFF_FFFF && g.fatbase + g.FatArea() <= g.database
  {
  }

  lemma CursorClusterHere(g: Geometry, f: FileView)
    requires 0 < g.csize && Cursor(g, f)
    ensures f.fptr > 0 ==> OnCluster(g, f, (f.fptr - 1) / 512)
  {
  }

  method Truncate(fp: File) returns (res: FResult)
    requires fp.Inv()
    modifies fp`chain, fp`sclust, fp`objsize, fp`modified, fp`dirty, fp`err, fp.fs`alive, fp.fs`disk, fp.fs`wflag, fp.fs`faults,
             fp.fs`lostWrites, fp.fs`winsect, fp.fs.win, fp.fs`freeClst, fp.fs`torn, fp.fs`fsiFlag
    ensures if fp.fs.alive then old(fp.fs.alive) else res == InvalidObject
    ensures fp.Inv() && old(fp.fs.Log()).Onward(fp.fs.Log())
    ensures old(fp.err) == Ok ==> OthersKept(fp.fs.g, old(DevOf(fp.fs)), old(fp.chain), DevOf(fp.fs), fp.chain)
    ensures res == Ok ==> old(fp.err) == Ok == fp.err && fp.canWrite && fp.Placed()
    // the bytes before the position stay, and so do exactly the clusters that hold them
    ensures res == Ok ==> fp.Data() == old(fp.Data())[..fp.fptr] && fp.objsize == fp.fptr
    ensures res == Ok ==> 0 < fp.fs.g.csize && (fp.fptr < old(fp.objsize) ==>
              ClustersFor(fp.fs.g, fp.fptr) <= |old(fp.chain)| && fp.chain == old(fp.chain)[..ClustersFor(fp.fs.g, fp.fptr)])
    // the flag is set; with nothing behind the position nothing happens at all
    ensures res == Ok ==> fp.modified == (old(fp.modified) || fp.fptr < old(fp.objsize))
    ensures res == Ok && fp.fptr == old(fp.objsize) ==>
              fp.View() == old(fp.View()) && fp.Pending() == old(fp.Pending()) && DevOf(fp.fs) == old(DevOf(fp.fs))
    // the others are free, and nothing is left to be written
    ensures res == Ok && fp.fptr < old(fp.objsize) ==> !fp.dirty && forall q :: ClustersFor(fp.fs.g, fp.fptr) <= q < |old(fp.chain)| ==>
              2 <= old(fp.chain)[q] < fp.fs.g.nFatent && fp.fs.Fat()[old(fp.chain)[q]] == 0
    ensures res == Ok && old(FreeOk(fp.fs)) ==> FreeOk(fp.fs)
    ensures res != Ok ==>
      || (res == InvalidObject && !fp.fs.alive && fp.View() == old(fp.View()) && fp.err == old(fp.err))
      || (res == old(fp.err) && fp.View() == old(fp.View()) && fp.err == old(fp.err))
      || (res == Denied && !fp.canWrite && fp.View() == old(fp.View()) && fp.err == Ok)
      || (res == DiskErr == fp.err && fp.fs.faults > old(fp.fs.faults))
  {
    hide FatFs.FsInfoTold, FatFs.Valid, FatFs.Fat, FatFs.Logical, Laid, Clean, Sectors, BytesOf, Cursor, OthersKept, FreeCount, FreeOk;
    if fp.err == Ok {
      FileFacts(fp);
      NothingChanged(fp.fs.g, DevOf(fp.fs), fp.chain);
    }
    res := Validate(fp);
    if res != Ok { return; }
    if fp.err != Ok { return fp.err; }
    if !fp.canWrite { return Denied; }
    if fp.fptr < fp.objsize {
      res := TruncateHere(fp);
      if res != Ok { fp.err := res; }
    } else {
      assert fp.Data()[..fp.fptr] == fp.Data();
    }
  }
}
