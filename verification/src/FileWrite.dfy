/**
 Writing a file (ff.c, f_write): the chain is followed or stretched cluster by cluster,
 whole sectors go straight to the device, parts of sectors into the dirty buffer.
 */
module FileWrite {
  import opened Bytes
  import opened Volume
  import opened Window
  import opened FatEntries
  import opened Chains
  import opened Allocation
  import opened FatRuns
  import opened Layout
  import opened FileState
  import opened FileRead

  // ------------------------------------------------------------- stretching the chain

  /** The last cluster of a chain, 0 if there is none. */
  ghost function LastOf(chain: seq<nat>): nat {
    if chain == [] then 0 else chain[|chain| - 1]
  }

  lemma GrownIsChain(fat: seq<nat>, chain: seq<nat>, ncl: nat, eoc: nat)
    requires chain != [] ==> IsChain(fat, chain)
    requires 2 <= ncl < |fat| && fat[ncl] == 0 && eoc >= |fat|
    ensures LastOf(chain) == 0 || 2 <= LastOf(chain) < |fat|
    ensures IsChain(Appended(fat, LastOf(chain), ncl, eoc), chain + [ncl])
    ensures forall c :: 2 <= c < |fat| && Appended(fat, LastOf(chain), ncl, eoc)[c] == 0 ==> fat[c] == 0 && c != ncl
  {
    if chain == [] {
      assert chain + [ncl] == [ncl];
    } else {
      ChainAllocated(fat, chain);
      assert LastOf(chain) in chain;
      AppendToChain(fat, chain, ncl, eoc);
    }
  }

  lemma GrownSectors(g: Geometry, chain: seq<nat>, ncl: nat)
    ensures Sectors(g, chain + [ncl]) == Sectors(g, chain) + Run(g, ncl)
  {
    assert (chain + [ncl])[..|chain|] == chain;
  }

  /** A free cluster hung behind the chain: the file keeps its bytes and all it relies on. */
  lemma ChainGrown(g: Geometry, d: Dev, d': Dev, f: FileView, f': FileView, ncl: nat, eoc: nat)
    requires Laid(g, d, f) && 2 <= ncl < |d.fat| && d.fat[ncl] == 0 && eoc >= |d.fat|
    requires LastOf(f.chain) == 0 || 2 <= LastOf(f.chain) < |d.fat|
    requires d'.fat == Appended(d.fat, LastOf(f.chain), ncl, eoc)
    requires DataKept(g, d.disk, d.winsect, d'.disk, d'.winsect) && g.InFat1(d'.winsect)
    requires OutsideFatSame(g, d.view, d'.view) && d.log.Onward(d'.log)
    requires f' == f.(chain := f.chain + [ncl], clust := ncl, sclust := if f.sclust == 0 then ncl else f.sclust)
    ensures Laid(g, d', f') && BytesOf(g, d', f') == BytesOf(g, d, f)
    ensures Clean(g, d, f) ==> Clean(g, d', f')
    ensures OthersKept(g, d, f.chain, d', f'.chain)
  {
    hide Sectors, IsChain, PowerOfTwo, Appended;
    GrownIsChain(d.fat, f.chain, ncl, eoc);
    GrownSectors(g, f.chain, ncl);
    FileSectors(g, d, f);
    var s, s' := Sectors(g, f.chain), Sectors(g, f'.chain);
    ChainSectors(g, d'.fat, f'.chain);
    assert d'.winsect !in s';
    assert f.dirSect !in Run(g, ncl);
    SameView(d.disk, s, f.dirty, f.sect, f.buf, d'.disk, s', f.dirty, f.sect, f.buf, f.objsize);
    GrownOthers(g, d, d', f.chain, ncl, eoc);
  }

  lemma GrownOthers(g: Geometry, d: Dev, d': Dev, chain: seq<nat>, ncl: nat, eoc: nat)
    requires |d.fat| == g.nFatent && g.fatbase + g.FatArea() <= g.database && (chain != [] ==> IsChain(d.fat, chain))
    requires 2 <= ncl < |d.fat| && d.fat[ncl] == 0 && eoc >= |d.fat|
    requires LastOf(chain) == 0 || 2 <= LastOf(chain) < |d.fat|
    requires d'.fat == Appended(d.fat, LastOf(chain), ncl, eoc)
    requires DataKept(g, d.disk, d.winsect, d'.disk, d'.winsect) && g.InFat1(d'.winsect)
    requires OutsideFatSame(g, d.view, d'.view) && d.log.Onward(d'.log)
    ensures OthersKept(g, d, chain, d', chain + [ncl])
  {
    assert chain != [] ==> LastOf(chain) in chain;
    GrownTable(d.fat, chain, ncl, eoc);
    hide IsChain, TableKept;
    FatChangedForChain(g, d, chain, d', chain + [ncl]);
  }

  /** No cluster can be had: none is counted as free, or none is marked so. */
  ghost predicate NoCluster(fs: FatFs)
    requires fs.Valid()
    reads fs`disk, fs`wflag, fs`winsect, fs`lostWrites, fs.win, fs`freeClst
  {
    fs.freeClst == 0 || forall c :: 2 <= c < fs.g.nFatent ==> fs.Fat()[c] != 0
  }

  ghost predicate DamagedFat(fs: FatFs)
    requires fs.Valid()
    reads fs`disk, fs`wflag, fs`winsect, fs`lostWrites, fs.win
  {
    exists c :: 2 <= c < fs.g.nFatent && fs.Fat()[c] == 1
  }

  /** No cluster can be had, or the table is damaged. */
  ghost predicate CannotGrow(fat: seq<nat>, freeClst: nat) {
    || freeClst == 0 || (forall c :: 2 <= c < |fat| ==> fat[c] != 0)
    || exists c :: 2 <= c < |fat| && fat[c] == 1
  }

  lemma WhyNotGrow(fs: FatFs)
    requires fs.Valid() && (NoCluster(fs) || DamagedFat(fs))
    ensures CannotGrow(fs.Fat(), fs.freeClst)
  {
  }

  /** And so it remains when a call for one file succeeds. */
  lemma StillCannotGrow(g: Geometry, d: Dev, f: FileView, n: nat, d': Dev, f': FileView, n': nat)
    requires Laid(g, d, f) && Laid(g, d', f') && OthersKept(g, d, f.chain, d', f'.chain) && f.chain <= f'.chain
    requires CannotGrow(d.fat, n) && (n == 0 ==> n' == 0)
    ensures CannotGrow(d'.fat, n')
  {
    hide Sectors, PowerOfTwo, TableKept;
    if f.chain != [] { ChainAllocated(d.fat, f.chain); }
    if f'.chain != [] { ChainAllocated(d'.fat, f'.chain); }
    assert forall c :: c in f.chain ==> c in f'.chain;
    if c :| 2 <= c < |d.fat| && d.fat[c] == 1 {
      assert d'.fat[c] == 1;
    }
  }

  /** The view after create_chain has hung cluster ncl behind the file's chain. */
  ghost function Grown(f: FileView, ncl: nat): FileView {
    f.(chain := f.chain + [ncl], sclust := if f.sclust == 0 then ncl else f.sclust)
  }

  /** create_chain, and what it means for the file f: grew if it took a cluster for it. */
  method StretchTable(fs: FatFs, from: Dword, ghost f: FileView, ghost j: nat) returns (val: Dword, ghost grew: bool)
    requires fs.Valid() && Laid(fs.g, DevOf(fs), f) && Clean(fs.g, DevOf(fs), f)
    requires if from == 0 then f.sclust == 0 && j == 0 else 0 < j <= |f.chain| && f.chain[j - 1] == from
    modifies fs`disk, fs`wflag, fs`faults, fs`lostWrites, fs`winsect, fs.win, fs`freeClst, fs`torn, fs`fsiFlag, fs`lastClst
    ensures fs.Valid() && old(fs.Log()).Onward(fs.Log()) && |fs.disk| == |old(fs.disk)|
    ensures DataKept(fs.g, old(fs.disk), old(fs.winsect), fs.disk, fs.winsect)
    ensures OthersKept(fs.g, old(DevOf(fs)), f.chain, DevOf(fs), if grew then f.chain + [val] else f.chain)
    ensures old(fs.freeClst) == 0 ==> fs.freeClst == 0
    ensures val == DISK_ERROR ==> !grew && fs.faults > old(fs.faults)
    ensures val != DISK_ERROR && !grew ==> Quiet(old(fs.Pending()), old(fs.disk), fs.Pending(), fs.disk)
    ensures val != DISK_ERROR ==> var f' := if grew then Grown(f, val) else f;
              Laid(fs.g, DevOf(fs), f') && Clean(fs.g, DevOf(fs), f') && BytesOf(fs.g, DevOf(fs), f') == old(BytesOf(fs.g, DevOf(fs), f))
    ensures val != DISK_ERROR && old(FreeOk(fs)) ==> FreeOk(fs)
    ensures val == 0 ==> !grew && NoCluster(fs) && j == |f.chain|
    ensures val == 1 ==> !grew && DamagedFat(fs)
    ensures 2 <= val && val != DISK_ERROR ==> val < fs.g.nFatent && fs.Fat()[val] != 0
    ensures 2 <= val && val != DISK_ERROR ==> if grew then j == |f.chain| else j < |f.chain| && f.chain[j] == val
  {
    hide FatFs.FsInfoTold, FatFs.Valid, FatFs.Fat, FatFs.Logical, FatFs.Image, Laid, Clean, Sectors, DataKept, BytesOf, Pick, FreeCount,
         IsChain, OthersKept, FreeOk, GoodVolume, CreateStep, Appended, OutsideFatSame, CreateTorn;
    ghost var g, d := fs.g, DevOf(fs);
    StretchFrom(g, d, f, from, j);
    VolumeIsGood(fs);
    if from == 0 || d.fat[from] >= g.nFatent { PickComplete(d.fat, from, fs.lastClst); }
    EocEndsChain(g, EOC);
    val := CreateChain(fs, from);
    ghost var d' := DevOf(fs);
    KeptSize(g, d.disk, d.winsect, d'.disk, d'.winsect);
    grew := Allocates(d.fat, from, val);
    if grew {
      StretchGrew(g, d, d', f, val, EndMark(fs));
    } else {
      if val != DISK_ERROR { WindowMoved(g, d, d', f); }
      StretchFailed(g, d, d', f.chain, from, val, EndMark(fs));
    }
  }

  /** create_chain for this file: its successor of cluster from, or one more cluster. */
  method Stretch(fp: File, from: Dword, ghost j: nat) returns (val: Dword)
    requires fp.Placed() && Clean(fp.fs.g, DevOf(fp.fs), fp.View())
    requires if from == 0 then fp.sclust == 0 && j == 0 else 0 < j <= |fp.chain| && fp.chain[j - 1] == from
    modifies fp`chain, fp`sclust, fp.fs`disk, fp.fs`wflag, fp.fs`faults, fp.fs`lostWrites, fp.fs`winsect, fp.fs.win,
             fp.fs`freeClst, fp.fs`torn, fp.fs`fsiFlag, fp.fs`lastClst
    ensures fp.Shaped() && old(fp.fs.Log()).Onward(fp.fs.Log())
    ensures OthersKept(fp.fs.g, old(DevOf(fp.fs)), old(fp.chain), DevOf(fp.fs), fp.chain)
    ensures old(fp.chain) <= fp.chain && (old(fp.fs.freeClst) == 0 ==> fp.fs.freeClst == 0)
    ensures fp.chain != old(fp.chain) ==> j == |old(fp.chain)|
    ensures val == DISK_ERROR ==> fp.fs.faults > old(fp.fs.faults)
    ensures val != DISK_ERROR && fp.chain == old(fp.chain) ==> old(fp.Kept()).Untouched(fp.Kept())
    ensures val != DISK_ERROR ==> fp.Placed() && Clean(fp.fs.g, DevOf(fp.fs), fp.View()) && fp.Data() == old(fp.Data())
    ensures val != DISK_ERROR && old(FreeOk(fp.fs)) ==> FreeOk(fp.fs)
    ensures val == 0 ==> NoCluster(fp.fs) && j == |fp.chain|
    ensures val == 1 ==> DamagedFat(fp.fs)
    ensures val < 2 ==> fp.chain == old(fp.chain) && fp.sclust == old(fp.sclust)
    ensures 2 <= val && val != DISK_ERROR ==> j < |fp.chain| && fp.chain[j] == val && fp.fs.Fat()[val] != 0
  {
    hide FatFs.FsInfoTold, FatFs.Valid, FatFs.Fat, FatFs.Logical, Laid, Clean, DataKept, BytesOf, OthersKept, FreeOk, FreeCount,
         NoCluster, DamagedFat;
    VolumeIsGood(fp.fs);
    ghost var g, d, f := fp.fs.g, DevOf(fp.fs), fp.View();
    StretchStart(g, d, f);
    ghost var grew;
    val, grew := StretchTable(fp.fs, from, f, j);
    VolumeIsGood(fp.fs);
    if fp.dirty { BufferClear(g, d, DevOf(fp.fs), fp.sect); }
    if from == 0 && val >= 2 && val != DISK_ERROR {
      fp.sclust := val;
    }
    if grew {
      fp.chain := fp.chain + [val];
      assert fp.View() == Grown(f, val);
    } else {
      assert fp.View() == f;
    }
  }

  lemma StretchStart(g: Geometry, d: Dev, f: FileView)
    requires Laid(g, d, f)
    ensures g.fatbase + g.FatArea() <= g.database && (f.sclust == 0 <==> f.chain == []) && |d.disk| <= 0xFFFF_FFFF
  {
    hide Sectors, PowerOfTwo;
    if f.chain != [] { ChainAllocated(d.fat, f.chain); assert f.chain[0] in f.chain; }
  }

  lemma StretchGrew(g: Geometry, d: Dev, d': Dev, f: FileView, ncl: nat, eoc: nat)
    requires Laid(g, d, f) && 2 <= ncl < |d.fat| && d.fat[ncl] == 0 && eoc >= |d.fat|
    requires LastOf(f.chain) == 0 || 2 <= LastOf(f.chain) < |d.fat|
    requires d'.fat == Appended(d.fat, LastOf(f.chain), ncl, eoc)
    requires DataKept(g, d.disk, d.winsect, d'.disk, d'.winsect) && g.InFat1(d'.winsect)
    requires OutsideFatSame(g, d.view, d'.view) && d.log.Onward(d'.log)
    ensures var f' := Grown(f, ncl);
            && Laid(g, d', f') && BytesOf(g, d', f') == BytesOf(g, d, f) && (Clean(g, d, f) ==> Clean(g, d', f'))
            && OthersKept(g, d, f.chain, d', f'.chain)
    ensures d'.fat[ncl] != 0
  {
    hide Laid, Clean, DataKept, BytesOf, OthersKept;
    var grown := f.(chain := f.chain + [ncl], clust := ncl, sclust := if f.sclust == 0 then ncl else f.sclust);
    ChainGrown(g, d, d', f, grown, ncl, eoc);
    CursorIgnored(g, d', grown, f.fptr, f.clust);
    assert grown.(fptr := f.fptr, clust := f.clust) == Grown(f, ncl);
  }

  /** What the cluster to stretch from is: nothing yet, an inner cluster, or the last one. */
  lemma StretchFrom(g: Geometry, d: Dev, f: FileView, from: nat, j: nat)
    requires Laid(g, d, f)
    requires if from == 0 then f.sclust == 0 && j == 0 else 0 < j <= |f.chain| && f.chain[j - 1] == from
    ensures 3 <= |d.fat| == g.nFatent < 0x1000_0000
    ensures from == 0 ==> f.chain == [] && LastOf(f.chain) == 0
    ensures f.chain != [] ==> 2 <= f.chain[0] < g.nFatent
    ensures from != 0 ==> 2 <= from < g.nFatent && from in f.chain && f.sclust != 0
    ensures from != 0 && j < |f.chain| ==> d.fat[from] == f.chain[j] && 2 <= f.chain[j] < g.nFatent && d.fat[f.chain[j]] != 0
    ensures from != 0 && j == |f.chain| ==> d.fat[from] >= g.nFatent && LastOf(f.chain) == from
  {
    hide Sectors, PowerOfTwo;
    if f.chain != [] {
      ChainAllocated(d.fat, f.chain);
      assert f.chain[0] in f.chain;
      if j < |f.chain| { assert f.chain[j] in f.chain; }
    }
  }

  /** A stretch that takes no cluster, or fails: only the entry it started from can suffer. */
  lemma StretchFailed(g: Geometry, d: Dev, d': Dev, chain: seq<nat>, from: nat, val: nat, eoc: nat)
    requires |d'.fat| == |d.fat| == g.nFatent && DataKept(g, d.disk, d.winsect, d'.disk, d'.winsect)
    requires g.fatbase + g.FatArea() <= g.database && OutsideFatSame(g, d.view, d'.view) && d.log.Onward(d'.log)
    requires (from != 0 ==> from in chain) && (chain != [] ==> 2 <= chain[0] < |d.fat|)
    requires d'.log.torn == d.log.torn ==>
               CreateStep(d.fat, d'.fat, eoc, from, val) && !Allocates(d.fat, from, val) && eoc >= |d.fat|
    requires forall c :: 0 <= c < g.nFatent && c != from && d.fat[c] != 0 ==> d'.fat[c] == d.fat[c]
    ensures OthersKept(g, d, chain, d', chain)
  {
    if d'.log.torn == d.log.torn { NotGrownTable(d.fat, d'.fat, eoc, from, val, chain); }
    hide TableKept, CreateStep;
    FatChangedForChain(g, d, chain, d', chain);
  }

  // ------------------------------------------------------------- splicing bytes

  /** b with part written over it from position p on, growing at the end if need be. */
  function Splice(b: seq<Byte>, p: nat, part: seq<Byte>): (r: seq<Byte>)
    requires p <= |b|
    ensures |r| == if p + |part| > |b| then p + |part| else |b|
    ensures forall i :: 0 <= i < |r| ==> r[i] == if p <= i < p + |part| then part[i - p] else b[i]
  {
    b[..p] + part + if p + |part| < |b| then b[p + |part|..] else []
  }

  lemma SpliceTwice(b: seq<Byte>, p: nat, x: seq<Byte>, y: seq<Byte>)
    requires p <= |b|
    ensures Splice(Splice(b, p, x), p + |x|, y) == Splice(b, p, x + y)
  {
  }

  /** The view after n bytes were written at the cursor. */
  ghost function Advanced(f: FileView, n: nat): FileView {
    f.(fptr := f.fptr + n, objsize := Max(f.fptr + n, f.objsize))
  }

  /** Only the sectors of this file's sector k .. k + cc - 1 get the new blocks. */
  ghost predicate BlocksWritten(disk: seq<Sector>, disk': seq<Sector>, s: nat, cc: nat, part: seq<Byte>) {
    && |disk'| == |disk| && |part| == 512 * cc && s + cc <= |disk|
    && (forall t :: 0 <= t < |disk| && !(s <= t < s + cc) ==> disk'[t] == disk[t])
    && (forall t, i :: s <= t < s + cc && 0 <= i < 512 ==> disk'[t][i] == part[512 * (t - s) + i])
  }

  /** Whole sectors written behind a buffer that is not dirty. */
  lemma SectorsWritten(g: Geometry, d: Dev, d': Dev, f: FileView, f': FileView, sect: nat, csect: nat, cc: nat, part: seq<Byte>)
    requires Laid(g, d, f) && !f.dirty && f.fptr <= f.objsize && 0 < cc
    requires SectorReady(g, d, f, sect, csect) && csect + cc <= g.csize
    requires d'.fat == d.fat && d'.winsect == d.winsect && BlocksWritten(d.disk, d'.disk, sect, cc, part)
    requires f' == Advanced(f, 512 * cc).(buf := f'.buf)
    ensures Laid(g, d', f')
    ensures BytesOf(g, d', f') == Splice(BytesOf(g, d, f), f.fptr, part)
  {
    hide Sectors, IsChain, PowerOfTwo;
    var k := f.fptr / 512;
    FileSectors(g, d, f);
    ContiguousSectors(g, f.chain, k, cc - 1);
    FileSectors(g, d', f');
    var s := Sectors(g, f.chain);
    var b, b' := BytesOf(g, d, f), BytesOf(g, d', f');
    forall i | 0 <= i < f'.objsize ensures b'[i] == Splice(b, f.fptr, part)[i] {
      if k <= i / 512 < k + cc {
        ContiguousSectors(g, f.chain, k, i / 512 - k);
        assert part[512 * (i / 512 - k) + i % 512] == part[i - 512 * k];
      } else {
        OutsideBlocks(g, d, f, k, cc, i / 512);
      }
    }
  }

  lemma OutsideBlocks(g: Geometry, d: Dev, f: FileView, k: nat, cc: nat, m: nat)
    requires Laid(g, d, f) && k < |Sectors(g, f.chain)| && 0 < cc && k % g.csize + cc <= g.csize
    requires m < |Sectors(g, f.chain)| && !(k <= m < k + cc)
    ensures var s := Sectors(g, f.chain); !(s[k] <= s[m] < s[k] + cc)
  {
    hide Sectors, IsChain, PowerOfTwo;
    FileSectors(g, d, f);
    var s := Sectors(g, f.chain);
    if s[k] <= s[m] < s[k] + cc {
      var j := s[m] - s[k];
      ContiguousSectors(g, f.chain, k, j);
    }
  }

  /** Bytes put into the buffer, which becomes dirty. */
  lemma BufferWritten(g: Geometry, d: Dev, f: FileView, f': FileView, part: seq<Byte>)
    requires Laid(g, d, f) && f.fptr <= f.objsize && f.fptr % 512 + |part| <= 512 && 0 < |part|
    requires OnSector(g, f, f.fptr / 512)
    requires f.dirty || f.fptr < f.objsize || f.fptr % 512 != 0 ==>
               f.sect < |d.disk| && f.buf == SectorView(d.disk, f.sect, f.dirty, f.sect, f.buf)
    requires f' == Advanced(f, |part|).(dirty := true, buf := f'.buf)
    requires forall i :: 0 <= i < 512 ==>
               f'.buf[i] == if f.fptr % 512 <= i < f.fptr % 512 + |part| then part[i - f.fptr % 512] else f.buf[i]
    ensures Laid(g, d, f')
    ensures BytesOf(g, d, f') == Splice(BytesOf(g, d, f), f.fptr, part)
  {
    hide Sectors, IsChain, PowerOfTwo;
    FileSectors(g, d, f);
    var s, k := Sectors(g, f.chain), f.fptr / 512;
    assert (f.fptr + |part| + 511) / 512 <= k + 1;
    assert f.sect in s;
    FileSectors(g, d, f');
    var b, b' := BytesOf(g, d, f), BytesOf(g, d, f');
    forall i | 0 <= i < f'.objsize ensures b'[i] == Splice(b, f.fptr, part)[i] {
      if i / 512 == k {
        assert f.fptr <= i < f.fptr + |part| <==> f.fptr % 512 <= i % 512 < f.fptr % 512 + |part|;
      } else {
        assert s[i / 512] != s[k];
      }
    }
  }

  // ------------------------------------------------------------- finding the sector to write

  lemma ClusterBefore(g: Geometry, d: Dev, f: FileView)
    requires Laid(g, d, f) && Cursor(g, f) && f.fptr % 512 == 0 && f.fptr / 512 % g.csize == 0
    ensures var j := f.fptr / 512 / g.csize;
            if f.fptr == 0 then j == 0 && (f.sclust != 0 ==> f.chain != [] && f.chain[0] == f.sclust)
            else 0 < j <= |f.chain| && f.chain[j - 1] == f.clust && f.clust != 0
  {
    hide Sectors, PowerOfTwo;
    if f.fptr > 0 {
      BlockBefore(f.fptr / 512, g.csize);
      assert (f.fptr - 1) / 512 == f.fptr / 512 - 1;
      ChainAllocated(d.fat, f.chain);
      assert f.clust in f.chain;
    }
  }

  /** The j-th cluster of the file, which is made if it is missing. */
  method ClusterToEnter(fp: File, ghost j: nat) returns (clst: Dword)
    requires fp.Placed() && Clean(fp.fs.g, DevOf(fp.fs), fp.View())
    requires if fp.fptr == 0 then j == 0 else 0 < j <= |fp.chain| && fp.chain[j - 1] == fp.clust && fp.clust != 0
    modifies fp`chain, fp`sclust, fp.fs`disk, fp.fs`wflag, fp.fs`faults, fp.fs`lostWrites, fp.fs`winsect, fp.fs.win,
             fp.fs`freeClst, fp.fs`torn, fp.fs`fsiFlag, fp.fs`lastClst
    ensures fp.Shaped() && old(fp.fs.Log()).Onward(fp.fs.Log())
    ensures OthersKept(fp.fs.g, old(DevOf(fp.fs)), old(fp.chain), DevOf(fp.fs), fp.chain)
    ensures old(fp.chain) <= fp.chain && (old(fp.fs.freeClst) == 0 ==> fp.fs.freeClst == 0)
    ensures clst == DISK_ERROR ==> fp.fs.faults > old(fp.fs.faults)
    ensures clst != DISK_ERROR ==> fp.Placed() && Clean(fp.fs.g, DevOf(fp.fs), fp.View()) && fp.Data() == old(fp.Data())
    ensures clst != DISK_ERROR && old(FreeOk(fp.fs)) ==> FreeOk(fp.fs)
    ensures clst == 0 ==> NoCluster(fp.fs) && fp.chain == old(fp.chain)
    ensures clst == 1 ==> DamagedFat(fp.fs)
    ensures 2 <= clst && clst != DISK_ERROR ==> j < |fp.chain| && fp.chain[j] == clst
  {
    hide FatFs.FsInfoTold, FatFs.Valid, FatFs.Fat, FatFs.Logical, FatFs.Image, Laid, Clean, Sectors, DataKept, BytesOf, FreeCount,
         NoCluster, DamagedFat, OthersKept;
    VolumeIsGood(fp.fs);
    NothingChanged(fp.fs.g, DevOf(fp.fs), fp.chain);
    if fp.fptr == 0 {
      clst := fp.sclust;
      if clst == 0 {
        clst := Stretch(fp, 0, 0);
      } else {
        FirstCluster(fp);
      }
    } else {
      clst := Stretch(fp, fp.clust, j);
    }
  }

  /** f_write on a cluster boundary: follow or stretch the chain. */
  method EnterForWrite(fp: File) returns (res: FResult, full: bool)
    requires fp.Placed() && Clean(fp.fs.g, DevOf(fp.fs), fp.View()) && Cursor(fp.fs.g, fp.View())
    requires fp.fptr % 512 == 0 && fp.fptr / 512 % fp.fs.g.csize == 0
    modifies fp`clust, fp`chain, fp`sclust, fp.fs`disk, fp.fs`wflag, fp.fs`faults, fp.fs`lostWrites, fp.fs`winsect, fp.fs.win,
             fp.fs`freeClst, fp.fs`torn, fp.fs`fsiFlag, fp.fs`lastClst
    ensures fp.Shaped() && old(fp.fs.Log()).Onward(fp.fs.Log())
    ensures OthersKept(fp.fs.g, old(DevOf(fp.fs)), old(fp.chain), DevOf(fp.fs), fp.chain)
    ensures old(fp.chain) <= fp.chain && (old(fp.fs.freeClst) == 0 ==> fp.fs.freeClst == 0)
    ensures res == Ok || (res == DiskErr && fp.fs.faults > old(fp.fs.faults)) || (res == IntErr && DamagedFat(fp.fs))
    ensures res == Ok ==> fp.Placed() && Clean(fp.fs.g, DevOf(fp.fs), fp.View()) && fp.Data() == old(fp.Data())
    ensures res == Ok && old(FreeOk(fp.fs)) ==> FreeOk(fp.fs)
    ensures res == Ok && full ==> NoCluster(fp.fs) && fp.chain == old(fp.chain) && fp.clust == old(fp.clust)
    ensures res == Ok && !full ==> OnCluster(fp.fs.g, fp.View(), fp.fptr / 512)
  {
    hide FatFs.FsInfoTold, FatFs.Valid, FatFs.Fat, FatFs.Logical, FatFs.Image, Laid, Clean, Sectors, DataKept, BytesOf, FreeCount, Cursor,
         NoCluster, DamagedFat, OthersKept;
    ghost var g, d, f := fp.fs.g, DevOf(fp.fs), fp.View();
    VolumeIsGood(fp.fs);
    ghost var j := fp.fptr / 512 / g.csize;
    ClusterBefore(g, d, f);
    full := false;
    var clst := ClusterToEnter(fp, j);
    if clst == 0 { return Ok, true; }
    if clst == 1 { return IntErr, false; }
    if clst == DISK_ERROR { return DiskErr, false; }
    CursorIgnored(g, DevOf(fp.fs), fp.View(), f.fptr, clst);
    ghost var f' := fp.View();
    fp.clust := clst;
    assert fp.View() == f'.(fptr := f.fptr, clust := clst);
    res := Ok;
  }

  lemma FirstCluster(fp: File)
    requires fp.Placed() && fp.sclust != 0
    ensures fp.chain != [] && fp.chain[0] == fp.sclust && 2 <= fp.sclust < 0x1000_0000
  {
    hide Sectors, PowerOfTwo;
    DiskBound(fp.fs);
    ChainAllocated(fp.fs.Fat(), fp.chain);
    assert fp.chain[0] in fp.chain;
  }

  /** On a sector boundary: clust on the cluster of the next byte, which is made if need be. */
  method ClusterForWrite(fp: File) returns (res: FResult, full: bool, csect: nat)
    requires fp.Placed() && Clean(fp.fs.g, DevOf(fp.fs), fp.View()) && 0 < fp.fs.g.csize && Cursor(fp.fs.g, fp.View())
    requires fp.fptr % 512 == 0
    modifies fp`clust, fp`chain, fp`sclust, fp.fs`disk, fp.fs`wflag, fp.fs`faults, fp.fs`lostWrites, fp.fs`winsect, fp.fs.win,
             fp.fs`freeClst, fp.fs`torn, fp.fs`fsiFlag, fp.fs`lastClst
    ensures fp.Shaped() && old(fp.fs.Log()).Onward(fp.fs.Log())
    ensures OthersKept(fp.fs.g, old(DevOf(fp.fs)), old(fp.chain), DevOf(fp.fs), fp.chain)
    ensures old(fp.chain) <= fp.chain && (old(fp.fs.freeClst) == 0 ==> fp.fs.freeClst == 0)
    ensures res == Ok || (res == DiskErr && fp.fs.faults > old(fp.fs.faults)) || (res == IntErr && DamagedFat(fp.fs))
    ensures res == Ok ==> fp.Placed() && Clean(fp.fs.g, DevOf(fp.fs), fp.View()) && fp.Data() == old(fp.Data())
    ensures res == Ok && old(FreeOk(fp.fs)) ==> FreeOk(fp.fs)
    ensures res == Ok && full ==> NoCluster(fp.fs) && Cursor(fp.fs.g, fp.View())
    ensures res == Ok && !full ==> csect == fp.fptr / 512 % fp.fs.g.csize && OnCluster(fp.fs.g, fp.View(), fp.fptr / 512)
  {
    hide FatFs.FsInfoTold, FatFs.Valid, FatFs.Fat, FatFs.Logical, Laid, Clean, Sectors, BytesOf, Cursor, OnCluster, NoCluster, DamagedFat,
         OthersKept, FreeCount;
    ghost var g, f := fp.fs.g, fp.View();
    VolumeIsGood(fp.fs);
    CursorParts(g, f);
    NothingChanged(g, DevOf(fp.fs), f.chain);
    csect := And(fp.fptr / 512, fp.fs.g.csize - 1);
    MaskIsMod(fp.fptr / 512, fp.fs.g.csize);
    res, full := Ok, false;
    if csect == 0 {
      res, full := EnterForWrite(fp);
      if res == Ok && full { SameCursor(g, f, fp.View()); }
    }
  }

  /** On a sector boundary: the sector to write next, with nothing left dirty. */
  method SectorForWrite(fp: File) returns (res: FResult, full: bool, sect: Dword, csect: nat)
    requires fp.Placed() && Clean(fp.fs.g, DevOf(fp.fs), fp.View()) && Cursor(fp.fs.g, fp.View())
    requires fp.fptr % 512 == 0
    modifies fp`clust, fp`chain, fp`sclust, fp`dirty, fp.fs`disk, fp.fs`wflag, fp.fs`faults, fp.fs`lostWrites, fp.fs`winsect, fp.fs.win,
             fp.fs`freeClst, fp.fs`torn, fp.fs`fsiFlag, fp.fs`lastClst
    ensures fp.Shaped() && old(fp.fs.Log()).Onward(fp.fs.Log())
    ensures OthersKept(fp.fs.g, old(DevOf(fp.fs)), old(fp.chain), DevOf(fp.fs), fp.chain)
    ensures old(fp.chain) <= fp.chain && (old(fp.fs.freeClst) == 0 ==> fp.fs.freeClst == 0)
    ensures res == Ok || (res == DiskErr && fp.fs.faults > old(fp.fs.faults)) || (res == IntErr && DamagedFat(fp.fs))
    ensures res == Ok ==> fp.Placed() && Clean(fp.fs.g, DevOf(fp.fs), fp.View()) && fp.Data() == old(fp.Data())
    ensures res == Ok && old(FreeOk(fp.fs)) ==> FreeOk(fp.fs)
    ensures res == Ok && full ==> NoCluster(fp.fs) && Cursor(fp.fs.g, fp.View()) && fp.dirty == old(fp.dirty)
    ensures res == Ok && !full ==> !fp.dirty && 0 < fp.fs.g.csize && SectorReady(fp.fs.g, DevOf(fp.fs), fp.View(), sect, csect)
  {
    hide FatFs.FsInfoTold, FatFs.Valid, FatFs.Fat, FatFs.Logical, Laid, Clean, Sectors, BytesOf, Cursor, OnCluster, NoCluster, DamagedFat,
         OthersKept, FreeCount;
    ghost var g, d, f := fp.fs.g, DevOf(fp.fs), fp.View();
    sect := 0;
    VolumeIsGood(fp.fs);
    res, full, csect := ClusterForWrite(fp);
    if res != Ok || full { return; }
    ghost var d1, f1, k := DevOf(fp.fs), fp.View(), fp.fptr / 512;
    res := FlushBuffer(fp);
    FlushedOthers(g, d1, f1, DevOf(fp.fs));
    OthersOnward(g, d, f.chain, d1, f1.chain, DevOf(fp.fs), fp.chain);
    if res != Ok { return; }
    OnClusterKept(g, f1, fp.View(), k);
    SectorOfCluster(g, DevOf(fp.fs), fp.View(), k);
    var base := Clst2Sect(fp.fs.g, fp.clust);
    res := IntErr;
    if base == 0 { return; }
    sect := base + csect;
    res := Ok;
  }

  lemma SameCursor(g: Geometry, f: FileView, f': FileView)
    requires 0 < g.csize && Cursor(g, f)
    requires f'.fptr == f.fptr && f'.objsize == f.objsize && f'.chain == f.chain && f'.clust == f.clust && f'.sect == f.sect
    ensures Cursor(g, f')
  {
  }

  lemma OnClusterKept(g: Geometry, f: FileView, f': FileView, k: nat)
    requires 0 < g.csize && OnCluster(g, f, k) && f'.chain == f.chain && f'.clust == f.clust
    ensures OnCluster(g, f', k)
  {
  }

  // ------------------------------------------------------------- whole sectors

  lemma BlocksFromSlices(disk: seq<Sector>, disk': seq<Sector>, s: nat, cc: nat, src: seq<Byte>, off: nat)
    requires |disk'| == |disk| && s + cc <= |disk| && off + 512 * cc <= |src|
    requires forall t :: 0 <= t < |disk| && !(s <= t < s + cc) ==> disk'[t] == disk[t]
    requires forall t :: s <= t < s + cc ==> disk'[t] == src[off + 512 * (t - s)..off + 512 * (t - s) + 512]
    ensures BlocksWritten(disk, disk', s, cc, src[off..off + 512 * cc])
  {
  }

  /** disk_write of cc sectors; the buffer is refilled if it holds one of them. */
  method PutSectors(fp: File, buff: array<Byte>, off: nat, sect: Dword, csect: nat, cc: nat) returns (ok: bool)
    requires fp.Placed() && Clean(fp.fs.g, DevOf(fp.fs), fp.View()) && !fp.dirty
    requires buff != fp.buf && buff != fp.fs.win && 0 < cc && off + 512 * cc <= buff.Length
    requires SectorReady(fp.fs.g, DevOf(fp.fs), fp.View(), sect, csect) && csect + cc <= fp.fs.g.csize
    modifies fp.buf, fp.fs`disk, fp.fs`faults, fp.fs`lostWrites
    ensures fp.Shaped() && fp.fs.Fat() == old(fp.fs.Fat())
    ensures fp.fs.faults == old(fp.fs.faults) + (if ok then 0 else 1) && old(fp.fs.Log()).Onward(fp.fs.Log())
    ensures OthersKept(fp.fs.g, old(DevOf(fp.fs)), fp.chain, DevOf(fp.fs), fp.chain)
    ensures ok ==> BlocksWritten(old(fp.fs.disk), fp.fs.disk, sect, cc, buff[off..off + 512 * cc])
    ensures ok ==> !fp.fs.refuses
    ensures ok ==> Clean(fp.fs.g, DevOf(fp.fs), fp.View())
  {
    hide FatFs.FsInfoTold, FatFs.Valid, FatFs.Fat, FatFs.Logical, Laid, Sectors, BlocksWritten, SectorReady, OthersKept;
    ghost var g, d, f := fp.fs.g, DevOf(fp.fs), fp.View();
    TargetInData(g, d, f, sect, csect, cc);
    ok := WriteData(fp.fs, buff, off, sect, cc);
    ghost var d' := DevOf(fp.fs);
    DirectOthers(g, d, f, d', sect, csect, cc);
    if !ok { return; }
    BlocksFromSlices(d.disk, d'.disk, sect, cc, buff[..], off);
    assert buff[..][off..off + 512 * cc] == buff[off..off + 512 * cc];
    UnsignedRangeTest(fp.sect, sect, cc);
    if Sub32(fp.sect, sect) < cc {
      ghost var o := off + 512 * (fp.sect - sect);
      assert d'.disk[fp.sect] == buff[o..o + 512];
      CopyBlock(fp, buff, off + 512 * (fp.sect - sect));
    }
  }

  /** Writing sectors of the file's current cluster, seen from the others. */
  lemma DirectOthers(g: Geometry, d: Dev, f: FileView, d': Dev, sect: nat, csect: nat, cc: nat)
    requires Laid(g, d, f) && SectorReady(g, d, f, sect, csect) && 0 < cc && csect + cc <= g.csize
    requires d'.fat == d.fat && d'.winsect == d.winsect && |d'.disk| == |d.disk| && |d'.view| == |d.view| && d.log.Onward(d'.log)
    requires forall s :: 0 <= s < |d.disk| && !(sect <= s < sect + cc) ==> d'.disk[s] == d.disk[s]
    requires forall s :: 0 <= s < |d.view| && !(sect <= s < sect + cc) ==> d'.view[s] == d.view[s]
    ensures OthersKept(g, d, f.chain, d', f.chain)
  {
    hide Laid, Sectors, SectorReady, OthersKept;
    TargetInData(g, d, f, sect, csect, cc);
    OwnClusters(g, d, f);
    OwnSectorsOnly(g, d, f.chain, d');
  }

  /** memcpy of one sector into the file's buffer. */
  method CopyBlock(fp: File, buff: array<Byte>, o: nat)
    requires fp.buf.Length == 512 && buff != fp.buf && o + 512 <= buff.Length
    modifies fp.buf
    ensures fp.buf[..] == buff[o..o + 512]
  {
    forall i | 0 <= i < 512 {
      fp.buf[i] := buff[o + i];
    }
  }

  /** Direct write, and the cursor moves on. */
  method WriteSectors(fp: File, buff: array<Byte>, off: nat, sect: Dword, csect: nat, cc: nat) returns (res: FResult)
    requires fp.Placed() && Clean(fp.fs.g, DevOf(fp.fs), fp.View()) && !fp.dirty
    requires buff != fp.buf && buff != fp.fs.win && 0 < cc && off + 512 * cc <= buff.Length
    requires fp.fptr <= fp.objsize && fp.fptr + 512 * cc < 0x1_0000_0000
    requires SectorReady(fp.fs.g, DevOf(fp.fs), fp.View(), sect, csect) && csect + cc <= fp.fs.g.csize
    modifies fp.buf, fp`fptr, fp`objsize, fp.fs`disk, fp.fs`faults, fp.fs`lostWrites
    ensures fp.Shaped() && old(fp.fs.Log()).Onward(fp.fs.Log()) && fp.fs.Fat() == old(fp.fs.Fat())
    ensures OthersKept(fp.fs.g, old(DevOf(fp.fs)), fp.chain, DevOf(fp.fs), fp.chain)
    ensures res == Ok || (res == DiskErr && fp.fs.faults > old(fp.fs.faults))
    ensures res == Ok ==> fp.Placed() && Clean(fp.fs.g, DevOf(fp.fs), fp.View()) && 0 < fp.fs.g.csize && Cursor(fp.fs.g, fp.View())
    ensures res == Ok ==> fp.fptr == old(fp.fptr) + 512 * cc && fp.Data() == Splice(old(fp.Data()), old(fp.fptr), buff[off..off + 512 * cc])
    ensures res == Ok ==> fp.objsize >= old(fp.objsize) && !fp.fs.refuses
  {
    hide FatFs.FsInfoTold, FatFs.Valid, FatFs.Fat, FatFs.Logical, Laid, Sectors, BytesOf, BlocksWritten, Cursor, OthersKept, Clean,
         SectorReady, Splice;
    ghost var g, d, f := fp.fs.g, DevOf(fp.fs), fp.View();
    var ok := PutSectors(fp, buff, off, sect, csect, cc);
    if !ok { return DiskErr; }
    ghost var d', f1 := DevOf(fp.fs), fp.View();
    SectorsWritten(g, d, d', f, Advanced(f, 512 * cc).(buf := fp.buf[..]), sect, csect, cc, buff[off..off + 512 * cc]);
    fp.fptr := fp.fptr + 512 * cc;
    if fp.fptr > fp.objsize { fp.objsize := fp.fptr; }
    assert fp.View() == Advanced(f, 512 * cc).(buf := fp.buf[..]);
    CleanIgnoresCursor(g, d', f1, fp.View());
    SectorsAdvanced(g, d, f, fp.View(), sect, csect, cc);
    res := Ok;
  }

  lemma CleanIgnoresCursor(g: Geometry, d: Dev, f: FileView, f': FileView)
    requires Clean(g, d, f) && f'.dirty == f.dirty && f'.sect == f.sect && f'.buf == f.buf && f'.dirSect == f.dirSect
    ensures Clean(g, d, f')
  {
  }

  lemma TargetInData(g: Geometry, d: Dev, f: FileView, sect: nat, csect: nat, cc: nat)
    requires Laid(g, d, f) && SectorReady(g, d, f, sect, csect) && 0 < cc && csect + cc <= g.csize
    ensures g.database <= sect && sect + cc <= |d.disk| <= 0xFFFF_FFFF && !(sect <= d.winsect < sect + cc)
    ensures forall t :: sect <= t < sect + cc ==> t in Sectors(g, f.chain)
  {
    hide Sectors, IsChain, PowerOfTwo;
    FileSectors(g, d, f);
    var s, k := Sectors(g, f.chain), f.fptr / 512;
    ContiguousSectors(g, f.chain, k, cc - 1);
    forall t | s[k] <= t < s[k] + cc ensures t in s {
      ContiguousSectors(g, f.chain, k, t - s[k]);
      assert s[k + (t - s[k])] == t;
    }
  }

  // ------------------------------------------------------------- part of a sector

  /** The buffer holds what the next byte's sector shows, unless the file only starts there. */
  ghost predicate BufferReady(d: Dev, f: FileView) {
    f.dirty || f.fptr < f.objsize || f.fptr % 512 != 0 ==>
      f.sect < |d.disk| && f.buf == SectorView(d.disk, f.sect, f.dirty, f.sect, f.buf)
  }

  /** Fill the buffer for a partial write, except on the growing edge. */
  method FillForWrite(fp: File, sect: Dword) returns (res: FResult)
    requires fp.Placed() && Clean(fp.fs.g, DevOf(fp.fs), fp.View()) && !fp.dirty
    requires fp.fs.g.database <= sect < |fp.fs.disk| && fp.fptr % 512 == 0 && 0 < sect
    modifies fp`sect, fp.buf, fp.fs`faults
    ensures fp.Placed() && fp.Data() == old(fp.Data()) && SameStore(old(DevOf(fp.fs)), DevOf(fp.fs))
    ensures res == Ok || (res == DiskErr && fp.fs.faults > old(fp.fs.faults))
    ensures old(fp.fs.Log()).Onward(fp.fs.Log())
    ensures old(fp.sect) == sect || fp.fptr >= fp.objsize ==> res == Ok && fp.fs.faults == old(fp.fs.faults)
    ensures res == Ok ==> fp.sect == sect && BufferReady(DevOf(fp.fs), fp.View())
  {
    hide FatFs.FsInfoTold, FatFs.Valid, FatFs.Fat, FatFs.Logical, Laid, Sectors, BytesOf;
    ghost var g, d, f := fp.fs.g, DevOf(fp.fs), fp.View();
    if fp.sect != sect && fp.fptr < fp.objsize {
      res := ReadBuffer(fp, sect);
      if res != Ok { return; }
    }
    BufferIgnored(g, d, f, sect, fp.buf[..]);
    StoreKept(g, d, DevOf(fp.fs), f.(sect := sect, buf := fp.buf[..]));
    fp.sect := sect;
    res := Ok;
  }

  /** memcpy of n bytes to place at of the file's buffer. */
  method PutBytes(fp: File, buff: array<Byte>, off: nat, at: nat, n: nat)
    requires fp.buf.Length == 512 && buff != fp.buf && off + n <= buff.Length && at + n <= 512
    modifies fp.buf
    ensures forall i :: 0 <= i < 512 ==>
              fp.buf[..][i] == if at <= i < at + n then buff[off..off + n][i - at] else old(fp.buf[..])[i]
  {
    forall i | 0 <= i < n {
      fp.buf[at + i] := buff[off + i];
    }
    forall i | 0 <= i < 512
      ensures fp.buf[i] == if at <= i < at + n then buff[off..off + n][i - at] else old(fp.buf[..])[i]
    {
      if at <= i < at + n {
        assert fp.buf[at + (i - at)] == buff[off + (i - at)];
      }
    }
  }

  /** memcpy into the buffer, which becomes dirty. */
  method CopyIn(fp: File, buff: array<Byte>, off: nat, btw: nat) returns (wcnt: nat)
    requires fp.Placed() && BufferReady(DevOf(fp.fs), fp.View())
    requires buff != fp.buf && buff != fp.fs.win && 0 < btw && off + btw <= buff.Length && fp.fptr + btw < 0x1_0000_0000
    requires fp.fptr <= fp.objsize && OnSector(fp.fs.g, fp.View(), fp.fptr / 512)
    requires 0 < fp.fs.g.csize && OnCluster(fp.fs.g, fp.View(), fp.fptr / 512)
    modifies fp`fptr, fp`objsize, fp`dirty, fp.buf
    ensures fp.Placed() && fp.dirty
    ensures DevOf(fp.fs) == old(DevOf(fp.fs))
    ensures 0 < wcnt <= btw && fp.fptr == old(fp.fptr) + wcnt && fp.fptr <= fp.objsize && fp.objsize >= old(fp.objsize)
    ensures fp.Data() == Splice(old(fp.Data()), old(fp.fptr), buff[off..off + wcnt])
    ensures Cursor(fp.fs.g, fp.View()) && Clean(fp.fs.g, DevOf(fp.fs), fp.View())
  {
    hide FatFs.FsInfoTold, FatFs.Valid, FatFs.Fat, FatFs.Logical, Laid, Sectors, BytesOf, Cursor, OnSector, OnCluster;
    ghost var g, d, f := fp.fs.g, DevOf(fp.fs), fp.View();
    wcnt := 512 - fp.fptr % 512;
    if wcnt > btw { wcnt := btw; }
    ghost var part := buff[off..off + wcnt];
    PutBytes(fp, buff, off, fp.fptr % 512, wcnt);
    BufferWritten(g, d, f, Advanced(f, wcnt).(dirty := true, buf := fp.buf[..]), part);
    fp.dirty := true;
    fp.fptr := fp.fptr + wcnt;
    if fp.fptr > fp.objsize { fp.objsize := fp.fptr; }
    assert fp.View() == Advanced(f, wcnt).(dirty := true, buf := fp.buf[..]);
    OnSectorKept(g, f, fp.View(), f.fptr / 512);
    CursorAdvanced(g, f, fp.View(), wcnt);
    BufferInData(g, d, fp.View());
  }

  /** Inside a sector, the buffer is on it. */
  lemma ReadyInside(g: Geometry, d: Dev, f: FileView)
    requires Laid(g, d, f) && Clean(g, d, f) && Cursor(g, f) && f.fptr % 512 != 0
    ensures OnCluster(g, f, f.fptr / 512) && OnSector(g, f, f.fptr / 512) && BufferReady(d, f)
  {
    hide Sectors, PowerOfTwo, IsChain;
    CursorParts(g, f);
    SectorOfCluster(g, d, f, f.fptr / 512);
  }

  // ------------------------------------------------------------- f_write

  /** On the sector found: whole sectors directly, or part of one through the buffer. */
  method PutAtSector(fp: File, buff: array<Byte>, off: nat, btw: nat, sect: Dword, csect: nat) returns (res: FResult, wcnt: nat)
    requires fp.Placed() && Clean(fp.fs.g, DevOf(fp.fs), fp.View()) && !fp.dirty && fp.fptr <= fp.objsize
    requires SectorReady(fp.fs.g, DevOf(fp.fs), fp.View(), sect, csect)
    requires buff != fp.buf && buff != fp.fs.win && 0 < btw && off + btw <= buff.Length && fp.fptr + btw < 0x1_0000_0000
    modifies fp`dirty, fp`sect, fp`fptr, fp`objsize, fp.buf, fp.fs`disk, fp.fs`faults, fp.fs`lostWrites
    ensures fp.Shaped() && old(fp.fs.Log()).Onward(fp.fs.Log()) && fp.fs.Fat() == old(fp.fs.Fat())
    ensures OthersKept(fp.fs.g, old(DevOf(fp.fs)), fp.chain, DevOf(fp.fs), fp.chain)
    ensures res == Ok || (res == DiskErr && fp.fs.faults > old(fp.fs.faults))
    ensures res == Ok ==> fp.Placed() && Clean(fp.fs.g, DevOf(fp.fs), fp.View()) && 0 < fp.fs.g.csize && Cursor(fp.fs.g, fp.View())
    ensures res == Ok && old(Holds(fp.fs.g, fp.chain, fp.sect)) ==> Holds(fp.fs.g, fp.chain, fp.sect)
    ensures res == Ok && fp.fs.refuses ==> fp.dirty
    ensures res == Ok ==> 0 < wcnt <= btw && fp.fptr == old(fp.fptr) + wcnt <= fp.objsize
    ensures res == Ok ==> fp.Data() == Splice(old(fp.Data()), old(fp.fptr), buff[off..off + wcnt])
  {
    hide FatFs.FsInfoTold, FatFs.Valid, FatFs.Fat, FatFs.Logical, Laid, Clean, Sectors, BytesOf, Cursor, OthersKept, Splice, Holds,
         SectorReady, OnCluster, OnSector;
    ghost var g, d, f := fp.fs.g, DevOf(fp.fs), fp.View();
    ReadySector(g, d, f, sect, csect);
    wcnt := 0;
    var cc := btw / 512;
    if cc > 0 {
      if csect + cc > fp.fs.g.csize {
        cc := fp.fs.g.csize - csect;
      }
      res := WriteSectors(fp, buff, off, sect, csect, cc);
      return res, 512 * cc;
    }
    NothingChanged(g, d, fp.chain);
    res := FillForWrite(fp, sect);
    StoreOthers(g, d, fp.chain, DevOf(fp.fs));
    if res != Ok { return; }
    HoldsSector(g, fp.chain, fp.fptr / 512);
    OnReadySector(g, d, f, fp.View(), sect, csect);
    wcnt := CopyIn(fp, buff, off, btw);
  }

  /** The turn that starts on a sector boundary. */
  method WriteAligned(fp: File, buff: array<Byte>, off: nat, btw: nat) returns (res: FResult, full: bool, wcnt: nat)
    requires fp.Inv() && fp.err == Ok && fp.Placed() && fp.fptr <= fp.objsize && fp.fptr % 512 == 0
    requires buff != fp.buf && buff != fp.fs.win && 0 < btw && off + btw <= buff.Length && fp.fptr + btw < 0x1_0000_0000
    modifies fp`clust, fp`chain, fp`sclust, fp`dirty, fp`sect, fp`fptr, fp`objsize, fp.buf,
             fp.fs`disk, fp.fs`wflag, fp.fs`faults, fp.fs`lostWrites, fp.fs`winsect, fp.fs.win, fp.fs`freeClst, fp.fs`torn, fp.fs`fsiFlag,
             fp.fs`lastClst
    ensures fp.Shaped() && old(fp.fs.Log()).Onward(fp.fs.Log())
    ensures OthersKept(fp.fs.g, old(DevOf(fp.fs)), old(fp.chain), DevOf(fp.fs), fp.chain)
    ensures old(fp.chain) <= fp.chain && (old(fp.fs.freeClst) == 0 ==> fp.fs.freeClst == 0)
    ensures res == Ok || (res == DiskErr && fp.fs.faults > old(fp.fs.faults)) || (res == IntErr && DamagedFat(fp.fs))
    ensures res == Ok ==> fp.Inv() && fp.Placed() && fp.fptr <= fp.objsize
    ensures res == Ok && old(Holds(fp.fs.g, fp.chain, fp.sect)) ==> Holds(fp.fs.g, fp.chain, fp.sect)
    ensures res == Ok && old(FreeOk(fp.fs)) ==> FreeOk(fp.fs)
    ensures res == Ok && full ==> NoCluster(fp.fs) && fp.Data() == old(fp.Data()) && fp.fptr == old(fp.fptr) && fp.dirty == old(fp.dirty)
    ensures res == Ok && !full && fp.fs.refuses ==> fp.dirty
    ensures res == Ok && !full ==> 0 < wcnt <= btw && fp.fptr == old(fp.fptr) + wcnt
    ensures res == Ok && !full ==> fp.Data() == Splice(old(fp.Data()), old(fp.fptr), buff[off..off + wcnt])
  {
    hide FatFs.FsInfoTold, FatFs.Valid, FatFs.Fat, FatFs.Logical, Laid, Clean, Sectors, BytesOf, Cursor, OthersKept, NoCluster, DamagedFat,
         FreeCount, Splice, Holds, SectorReady;
    ghost var g, d, chain := fp.fs.g, DevOf(fp.fs), fp.chain;
    wcnt := 0;
    VolumeIsGood(fp.fs);
    var sect, csect;
    res, full, sect, csect := SectorForWrite(fp);
    HoldsMore(g, chain, fp.chain, fp.sect);
    if res != Ok || full { return; }
    ghost var d1, c1 := DevOf(fp.fs), fp.chain;
    res, wcnt := PutAtSector(fp, buff, off, btw, sect, csect);
    OthersOnward(g, d, chain, d1, c1, DevOf(fp.fs), fp.chain);
  }

  /** One turn of f_write's loop. */
  method WriteStep(fp: File, buff: array<Byte>, off: nat, btw: nat) returns (res: FResult, full: bool, wcnt: nat)
    requires fp.Inv() && fp.err == Ok && fp.Placed() && fp.fptr <= fp.objsize
    requires buff != fp.buf && buff != fp.fs.win && 0 < btw && off + btw <= buff.Length && fp.fptr + btw < 0x1_0000_0000
    modifies fp`clust, fp`chain, fp`sclust, fp`dirty, fp`sect, fp`fptr, fp`objsize, fp.buf,
             fp.fs`disk, fp.fs`wflag, fp.fs`faults, fp.fs`lostWrites, fp.fs`winsect, fp.fs.win, fp.fs`freeClst, fp.fs`torn, fp.fs`fsiFlag,
             fp.fs`lastClst
    ensures fp.Shaped() && old(fp.fs.Log()).Onward(fp.fs.Log())
    ensures OthersKept(fp.fs.g, old(DevOf(fp.fs)), old(fp.chain), DevOf(fp.fs), fp.chain)
    ensures old(fp.chain) <= fp.chain && (old(fp.fs.freeClst) == 0 ==> fp.fs.freeClst == 0)
    ensures res == Ok || (res == DiskErr && fp.fs.faults > old(fp.fs.faults)) || (res == IntErr && DamagedFat(fp.fs))
    ensures res == Ok ==> fp.Inv() && fp.Placed() && fp.fptr <= fp.objsize
    ensures res == Ok && old(Holds(fp.fs.g, fp.chain, fp.sect)) ==> Holds(fp.fs.g, fp.chain, fp.sect)
    ensures res == Ok && old(FreeOk(fp.fs)) ==> FreeOk(fp.fs)
    ensures res == Ok && full ==> NoCluster(fp.fs) && fp.Data() == old(fp.Data()) && fp.fptr == old(fp.fptr) && fp.dirty == old(fp.dirty)
    ensures res == Ok && !full && fp.fs.refuses ==> fp.dirty
    ensures res == Ok && !full ==> 0 < wcnt <= btw && fp.fptr == old(fp.fptr) + wcnt
    ensures res == Ok && !full ==> fp.Data() == Splice(old(fp.Data()), old(fp.fptr), buff[off..off + wcnt])
  {
    hide FatFs.FsInfoTold, FatFs.Valid, FatFs.Fat, FatFs.Logical, Laid, Clean, Sectors, BytesOf, Cursor, OthersKept, NoCluster, DamagedFat,
         FreeCount, Splice, Holds;
    if fp.fptr % 512 == 0 {
      res, full, wcnt := WriteAligned(fp, buff, off, btw);
    } else {
      VolumeIsGood(fp.fs);
      ReadyInside(fp.fs.g, DevOf(fp.fs), fp.View());
      NothingChanged(fp.fs.g, DevOf(fp.fs), fp.chain);
      wcnt := CopyIn(fp, buff, off, btw);
      res, full := Ok, false;
    }
  }

  /** One turn behind the bw bytes written so far into data, the first of them at position p. */
  method WriteOn(fp: File, buff: array<Byte>, n: nat, bw: nat, ghost data: seq<Byte>, ghost p: nat)
    returns (res: FResult, full: bool, bw': nat)
    requires fp.Inv() && fp.err == Ok && fp.Placed() && fp.fptr <= fp.objsize
    requires buff != fp.buf && buff != fp.fs.win && bw < n <= buff.Length && fp.fptr == p + bw && p + n < 0x1_0000_0000
    requires p <= |data| && fp.Data() == Splice(data, p, buff[..bw])
    modifies fp`clust, fp`chain, fp`sclust, fp`dirty, fp`sect, fp`fptr, fp`objsize, fp.buf,
             fp.fs`disk, fp.fs`wflag, fp.fs`faults, fp.fs`lostWrites, fp.fs`winsect, fp.fs.win, fp.fs`freeClst, fp.fs`torn, fp.fs`fsiFlag,
             fp.fs`lastClst
    ensures fp.Shaped() && old(fp.fs.Log()).Onward(fp.fs.Log())
    ensures OthersKept(fp.fs.g, old(DevOf(fp.fs)), old(fp.chain), DevOf(fp.fs), fp.chain)
    ensures old(fp.chain) <= fp.chain && (old(fp.fs.freeClst) == 0 ==> fp.fs.freeClst == 0)
    ensures res == Ok || (res == DiskErr && fp.fs.faults > old(fp.fs.faults)) || (res == IntErr && DamagedFat(fp.fs))
    ensures res == Ok ==> fp.Inv() && fp.Placed() && fp.fptr <= fp.objsize
    ensures res == Ok && old(Holds(fp.fs.g, fp.chain, fp.sect)) ==> Holds(fp.fs.g, fp.chain, fp.sect)
    ensures res == Ok && old(FreeOk(fp.fs)) ==> FreeOk(fp.fs)
    ensures res == Ok && full ==> NoCluster(fp.fs) && bw' == bw && fp.dirty == old(fp.dirty)
    ensures res == Ok && !full ==> bw < bw' && (fp.fs.refuses ==> fp.dirty)
    ensures bw <= bw' <= n && (res != Ok ==> bw' == bw)
    ensures res == Ok ==> fp.fptr == p + bw' && fp.Data() == Splice(data, p, buff[..bw'])
  {
    hide FatFs.FsInfoTold, FatFs.Valid, FatFs.Fat, FatFs.Logical, Laid, Clean, Sectors, BytesOf, Cursor, OthersKept, NoCluster, DamagedFat,
         FreeCount, Splice, Holds;
    var wcnt;
    res, full, wcnt := WriteStep(fp, buff, bw, n - bw);
    bw' := bw;
    if res == Ok && !full {
      SpliceMore(data, p, buff[..], bw, wcnt);
      assert buff[..][bw..bw + wcnt] == buff[bw..bw + wcnt] && buff[..][..bw + wcnt] == buff[..bw + wcnt];
      bw' := bw + wcnt;
    }
  }

  /** The loop of f_write: until all is written or no cluster is left. */
  method WriteLoop(fp: File, buff: array<Byte>, n: nat) returns (res: FResult, bw: nat)
    requires fp.Inv() && fp.err == Ok && fp.Placed() && fp.fptr <= fp.objsize
    requires buff != fp.buf && buff != fp.fs.win && n <= buff.Length && fp.fptr + n < 0x1_0000_0000
    modifies fp`clust, fp`chain, fp`sclust, fp`dirty, fp`sect, fp`fptr, fp`objsize, fp`err, fp.buf,
             fp.fs`disk, fp.fs`wflag, fp.fs`faults, fp.fs`lostWrites, fp.fs`winsect, fp.fs.win, fp.fs`freeClst, fp.fs`torn, fp.fs`fsiFlag,
             fp.fs`lastClst
    ensures fp.Inv() && bw <= n && fp.err == res && old(fp.fs.Log()).Onward(fp.fs.Log())
    ensures OthersKept(fp.fs.g, old(DevOf(fp.fs)), old(fp.chain), DevOf(fp.fs), fp.chain)
    ensures old(fp.chain) <= fp.chain && (old(fp.fs.freeClst) == 0 ==> fp.fs.freeClst == 0)
    ensures res == Ok || (res == DiskErr && fp.fs.faults > old(fp.fs.faults)) || (res == IntErr && DamagedFat(fp.fs))
    ensures res == Ok ==> fp.Placed() && fp.fptr == old(fp.fptr) + bw <= fp.objsize
    ensures res == Ok ==> fp.Data() == Splice(old(fp.Data()), old(fp.fptr), buff[..bw])
    ensures res == Ok && bw < n ==> NoCluster(fp.fs)
    ensures res != Ok ==> bw < n
    ensures res == Ok && 0 < bw && fp.fs.refuses ==> fp.dirty
    ensures res == Ok && old(Holds(fp.fs.g, fp.chain, fp.sect)) ==> Holds(fp.fs.g, fp.chain, fp.sect)
    ensures res == Ok && old(FreeOk(fp.fs)) ==> FreeOk(fp.fs)
  {
    hide FatFs.FsInfoTold, FatFs.Valid, FatFs.Fat, FatFs.Logical, Laid, Clean, Sectors, BytesOf, Cursor, OthersKept, NoCluster, DamagedFat,
         FreeCount, Splice, FreeOk, Holds, DevOf, File.Data;
    ghost var g, d, chain, data := fp.fs.g, DevOf(fp.fs), fp.chain, fp.Data();
    VolumeIsGood(fp.fs);
    NothingChanged(g, d, chain);
    SpliceNothing(data, fp.fptr);
    bw, res := 0, Ok;
    assert buff[..0] == [];
    while bw < n
      invariant fp.Inv() && fp.err == Ok == res && fp.Placed() && old(fp.fs.Log()).Onward(fp.fs.Log())
      invariant bw <= n && fp.fptr == old(fp.fptr) + bw <= fp.objsize
      invariant OthersKept(g, d, chain, DevOf(fp.fs), fp.chain)
      invariant (old(fp.fs.freeClst) == 0 ==> fp.fs.freeClst == 0) && chain <= fp.chain && (0 < bw && fp.fs.refuses ==> fp.dirty)
      invariant fp.Data() == Splice(data, old(fp.fptr), buff[..bw])
      invariant old(Holds(fp.fs.g, fp.chain, fp.sect)) ==> Holds(fp.fs.g, fp.chain, fp.sect)
      invariant old(FreeOk(fp.fs)) ==> FreeOk(fp.fs)
      decreases n - bw
    {
      ghost var d1, c1 := DevOf(fp.fs), fp.chain;
      var full;
      res, full, bw := WriteOn(fp, buff, n, bw, data, old(fp.fptr));
      OthersOnward(g, d, chain, d1, c1, DevOf(fp.fs), fp.chain);
      if res != Ok {
        fp.err := res;
        return;
      }
      if full { return; }
    }
  }

  lemma SpliceMore(b: seq<Byte>, p: nat, part: seq<Byte>, n: nat, k: nat)
    requires p <= |b| && n + k <= |part|
    ensures Splice(Splice(b, p, part[..n]), p + n, part[n..n + k]) == Splice(b, p, part[..n + k])
  {
    SpliceTwice(b, p, part[..n], part[n..n + k]);
    assert part[..n] + part[n..n + k] == part[..n + k];
  }

  lemma SpliceNothing(b: seq<Byte>, p: nat)
    requires p <= |b|
    ensures Splice(b, p, []) == b
  {
  }

  /** The 4 GiB limit: a request that would carry the position past 32 bits is cut to end at 4 GiB - 1. */
  function Clipped(fptr: Dword, btw: Dword): (n: Dword)
    ensures n <= btw
    ensures fptr + n < 0x1_0000_0000
    ensures n == btw || fptr + n == 0xFFFF_FFFF
  {
    if (fptr + btw) % 0x1_0000_0000 < fptr then 0xFFFF_FFFF - fptr else btw
  }

  method Write(fp: File, buff: array<Byte>, btw: Dword) returns (res: FResult, bw: nat)
    requires fp.Inv() && buff != fp.buf && buff != fp.fs.win && btw <= buff.Length
    modifies fp`clust, fp`chain, fp`sclust, fp`dirty, fp`sect, fp`fptr, fp`objsize, fp`err, fp`modified, fp.buf, fp.fs`alive, fp.fs`disk,
             fp.fs`wflag, fp.fs`faults, fp.fs`lostWrites, fp.fs`winsect, fp.fs.win, fp.fs`freeClst, fp.fs`torn, fp.fs`fsiFlag,
             fp.fs`lastClst
    ensures if fp.fs.alive then old(fp.fs.alive) else res == InvalidObject
    ensures fp.Inv() && bw <= btw && old(fp.fs.Log()).Onward(fp.fs.Log())
    // whatever happens, other files keep their chains and their sectors
    ensures old(fp.err) == Ok ==> OthersKept(fp.fs.g, old(DevOf(fp.fs)), old(fp.chain), DevOf(fp.fs), fp.chain)
    ensures old(fp.chain) <= fp.chain && (old(fp.fs.freeClst) == 0 ==> fp.fs.freeClst == 0)
    // an aborted object does nothing any more
    ensures old(fp.err) != Ok ==> res != Ok && DevOf(fp.fs) == old(DevOf(fp.fs)) && fp.View() == old(fp.View())
    // success: exactly the first bw bytes are spliced in at the old position
    ensures res == Ok ==> old(fp.err) == Ok == fp.err && fp.canWrite && fp.Placed()
    ensures res == Ok ==> old(fp.fptr) + bw == fp.fptr && old(fp.fptr) <= |old(fp.Data())|
    ensures res == Ok ==> fp.Data() == Splice(old(fp.Data()), old(fp.fptr), buff[..bw])
    ensures fp.modified == (old(fp.modified) || res == Ok)
    // fewer than asked: the 4 GiB limit, or no cluster to be had
    ensures res == Ok && bw < Clipped(old(fp.fptr), btw) ==> NoCluster(fp.fs)
    ensures res == Ok ==> bw <= Clipped(old(fp.fptr), btw)
    ensures res == Ok && old(Holds(fp.fs.g, fp.chain, fp.sect)) ==> Holds(fp.fs.g, fp.chain, fp.sect)
    ensures res == Ok && old(FreeOk(fp.fs)) ==> FreeOk(fp.fs)
    // on a read-only device what was written is in the buffer, or the call has failed
    ensures res == Ok && 0 < bw && fp.fs.refuses ==> fp.dirty
    // failure, and why; a failed call never reports all its bytes
    ensures res != Ok && 0 < btw ==> bw < btw
    ensures res != Ok ==>
      || (res == InvalidObject && !fp.fs.alive && bw == 0 && fp.View() == old(fp.View()) && fp.err == old(fp.err))
      || (res == old(fp.err) && bw == 0 && fp.View() == old(fp.View()) && fp.err == old(fp.err))
      || (res == Denied && !fp.canWrite && bw == 0 && fp.View() == old(fp.View()) && fp.err == Ok)
      || (res == DiskErr == fp.err && fp.fs.faults > old(fp.fs.faults))
      || (res == IntErr == fp.err && DamagedFat(fp.fs))
  {
    hide FatFs.FsInfoTold, FatFs.Valid, FatFs.Fat, FatFs.Logical, Laid, Clean, Sectors, BytesOf, Cursor, OthersKept, NoCluster, DamagedFat,
         FreeCount, Splice, FreeOk, Holds;
    bw := 0;
    if fp.err == Ok {
      FileFacts(fp);
      NothingChanged(fp.fs.g, DevOf(fp.fs), fp.chain);
    }
    res := Validate(fp);
    if res != Ok { return; }
    if fp.err != Ok { return fp.err, 0; }
    if !fp.canWrite { return Denied, 0; }
    res, bw := WriteLoop(fp, buff, Clipped(fp.fptr, btw));
    if res == Ok {
      fp.modified := true;
    }
  }
}
