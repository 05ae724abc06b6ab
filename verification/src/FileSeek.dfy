/**
 Moving the file pointer (ff.c, f_lseek without the link map): from the current cluster
 when the target is not behind it, else from the first; stretching the chain in write mode.
 */
module FileSeek {
  import opened Bytes
  import opened Volume
  import opened Window
  import opened FatEntries
  import opened Chains
  import opened Allocation
  import opened Layout
  import opened FileState
  import opened FileRead
  import opened FileWrite

  // ------------------------------------------------------------- cluster-size arithmetic

  /** Dividing by the cluster size is dividing by the sector size and then by the sectors per cluster. */
  lemma DivDiv(x: nat, c: nat)
    requires c > 0
    ensures x / 512 / c == x / (512 * c)
  {
    var k, r := x / 512, x % 512;
    var q, a := k / c, k % c;
    assert x == 512 * k + r && k == c * q + a;
    assert 512 * (c * q) == (512 * c) * q;
    assert x == (512 * c) * q + (512 * a + r);
    ModUnique(x, 512 * c, q, 512 * a + r);
  }

  lemma {:induction false} ClusterSizePower(c: nat, k: nat)
    requires PowerOfTwo(c)
    ensures PowerOfTwo(Times2(c, k))
  {
    if k > 0 {
      ClusterSizePower(c, k - 1);
    }
  }

  ghost function Times2(c: nat, k: nat): nat {
    if k == 0 then c else 2 * Times2(c, k - 1)
  }

  lemma BytesPerClusterIsPower(c: nat)
    requires PowerOfTwo(c)
    ensures PowerOfTwo(512 * c)
  {
    assert 512 * c == 2 * (256 * c) && 256 * c == 2 * (128 * c) && 128 * c == 2 * (64 * c) && 64 * c == 2 * (32 * c);
    assert 32 * c == 2 * (16 * c) && 16 * c == 2 * (8 * c) && 8 * c == 2 * (4 * c) && 4 * c == 2 * (2 * c);
    ClusterSizePower(c, 9);
    assert Times2(c, 9) == 512 * c by {
      assert Times2(c, 1) == 2 * c;
      assert Times2(c, 3) == 8 * c;
      assert Times2(c, 5) == 32 * c;
      assert Times2(c, 7) == 128 * c;
    }
  }

  /** Masking off the low bits rounds down to a cluster boundary. */
  lemma RoundDown(x: nat, b: nat)
    requires PowerOfTwo(b)
    ensures b > 0 && x - And(x, b - 1) == b * (x / b) <= x
  {
    MaskIsMod(x, b);
    hide And, PowerOfTwo;
    DivModIdentity(x, b);
  }

  lemma DivModIdentity(x: nat, b: nat)
    requires b > 0
    ensures x == b * (x / b) + x % b
  {
  }

  /** Position n lies in, or just at the end of, cluster q. */
  ghost predicate InCluster(g: Geometry, n: nat, q: nat) {
    512 * g.csize * q < n <= 512 * g.csize * q + 512 * g.csize
  }

  lemma InClusterIndex(g: Geometry, n: nat, q: nat)
    requires g.csize > 0 && InCluster(g, n, q)
    ensures (n - 1) / 512 / g.csize == q
    ensures n % 512 != 0 ==> var a := (n - 512 * g.csize * q) / 512;
              a < g.csize && n / 512 == g.csize * q + a && n / 512 / g.csize == q && n / 512 % g.csize == a
  {
    var m := g.csize * q;
    assert 512 * g.csize * q == 512 * m;
    InRun(m, g.csize, n);
    ModUnique((n - 1) / 512, g.csize, q, (n - 1) / 512 - m);
    if n % 512 != 0 {
      ModUnique(n / 512, g.csize, q, n / 512 - m);
    }
  }

  /** The sector of a position among the c sectors from number m on. */
  lemma InRun(m: nat, c: nat, n: nat)
    requires 512 * m < n <= 512 * m + 512 * c
    ensures m <= (n - 1) / 512 < m + c
    ensures n % 512 != 0 ==> n / 512 == m + (n - 512 * m) / 512 < m + c
  {
  }

  lemma InClusterIntro(g: Geometry, n: nat, q: nat)
    requires g.csize > 0 && n > 0 && q == (n - 1) / 512 / g.csize
    ensures InCluster(g, n, q) && q == (n - 1) / (512 * g.csize)
  {
    DivDiv(n - 1, g.csize);
    var b := 512 * g.csize;
    assert n - 1 == b * q + (n - 1) % b;
  }

  // ------------------------------------------------------------- following the chain

  /** The search stands at the start of cluster q of the chain, with clust on it. */
  ghost predicate AtCluster(g: Geometry, f: FileView, q: nat) {
    q < |f.chain| && f.clust == f.chain[q] && f.fptr == 512 * g.csize * q
  }

  lemma ClusterStarts(c: nat, q: nat, n: nat, size: nat, target: nat)
    requires size <= 512 * (n * c)
    ensures 512 * c * (q + 1) == 512 * c * q + 512 * c
    ensures 512 * c * q + 512 * c < target <= size ==> q + 1 < n
    ensures q + 1 == n ==> size <= 512 * c * q + 512 * c
  {
    var b := 512 * c;
    assert 512 * (n * c) == b * n;
    assert b * (q + 1) == b * q + b;
    if q + 1 >= n {
      MulMono(b, n, q + 1);
    }
  }

  lemma ClusterInChain(g: Geometry, d: Dev, f: FileView, q: nat, target: nat)
    requires Laid(g, d, f) && AtCluster(g, f, q)
    ensures 2 <= f.clust < 0x1000_0000 && 0 < g.csize < 256 && PowerOfTwo(g.csize)
    ensures q + 1 < |f.chain| ==> d.fat[f.clust] == f.chain[q + 1] && 2 <= f.chain[q + 1] < g.nFatent < 0x1000_0000
    ensures f.fptr + 512 * g.csize < target <= f.objsize ==> q + 1 < |f.chain|
    ensures 512 * g.csize * (q + 1) == f.fptr + 512 * g.csize
    ensures q + 1 == |f.chain| ==> f.objsize <= f.fptr + 512 * g.csize
    ensures |d.fat| == g.nFatent && f.clust < |d.fat|
  {
    hide Sectors;
    ChainAllocated(d.fat, f.chain);
    assert f.clust in f.chain;
    if q + 1 < |f.chain| { assert f.chain[q + 1] in f.chain; }
    FileSectors(g, d, f);
    ClusterStarts(g.csize, q, |f.chain|, f.objsize, target);
  }

  lemma RoundDownBelow(x: nat, y: nat, b: nat)
    requires PowerOfTwo(b) && b > 0 && x / b <= y / b
    ensures x - And(x, b - 1) == b * (x / b)
    ensures 0 <= b * (x / b) <= x && b * (x / b) <= y
  {
    hide And, PowerOfTwo;
    RoundDown(x, b);
    RoundDown(y, b);
    MulMono(b, x / b, y / b);
  }

  lemma StartOfCurrent(c: nat, ofs: nat, ifptr: nat)
    requires c > 0 && PowerOfTwo(c) && ofs > 0 && ifptr > 0
    requires (ofs - 1) / (512 * c) >= (ifptr - 1) / (512 * c)
    ensures var start := ifptr - 1 - And(ifptr - 1, 512 * c - 1);
            start == 512 * c * ((ifptr - 1) / 512 / c) && 0 <= start < ofs && start < ifptr
  {
    hide And, PowerOfTwo;
    BytesPerClusterIsPower(c);
    DivDiv(ifptr - 1, c);
    RoundDownBelow(ifptr - 1, ofs - 1, 512 * c);
  }

  /** "start from the current cluster". */
  method SeekCurrent(fp: File, ofs: Dword, ifptr: Dword) returns (clst: Dword, rest: Dword, ghost q: nat)
    requires fp.Placed() && Clean(fp.fs.g, DevOf(fp.fs), fp.View()) && 0 < ofs
    requires 0 < fp.fs.g.csize && PowerOfTwo(fp.fs.g.csize) && ifptr > 0 && OnCluster(fp.fs.g, fp.View(), (ifptr - 1) / 512)
    requires (ofs - 1) / (512 * fp.fs.g.csize) >= (ifptr - 1) / (512 * fp.fs.g.csize)
    modifies fp`fptr
    ensures fp.Placed() && Clean(fp.fs.g, DevOf(fp.fs), fp.View()) && fp.Data() == old(fp.Data())
    ensures clst == fp.clust && clst != 0 && AtCluster(fp.fs.g, fp.View(), q) && 0 < rest && fp.fptr + rest == ofs
  {
    hide FatFs.FsInfoTold, FatFs.Valid, FatFs.Fat, FatFs.Logical, Laid, Clean, Sectors, BytesOf, And, PowerOfTwo;
    ghost var g, d, f := fp.fs.g, DevOf(fp.fs), fp.View();
    StartOfCurrent(g.csize, ofs, ifptr);
    var start := ifptr - 1 - And(ifptr - 1, 512 * fp.fs.g.csize - 1);
    q := (ifptr - 1) / 512 / g.csize;
    CursorIgnored(g, d, f, start, f.clust);
    fp.fptr := start;
    assert fp.View() == f.(fptr := start, clust := f.clust);
    rest := ofs - start;
    clst := fp.clust;
    ClusterInChain(g, d, fp.View(), q, 0);
  }

  /** "start from the first cluster", which is made if there is none. */
  method SeekFirst(fp: File) returns (res: FResult, clst: Dword)
    requires fp.Placed() && Clean(fp.fs.g, DevOf(fp.fs), fp.View()) && fp.fptr == 0
    modifies fp`clust, fp`chain, fp`sclust, fp.fs`disk, fp.fs`wflag, fp.fs`faults, fp.fs`lostWrites, fp.fs`winsect, fp.fs.win,
             fp.fs`freeClst, fp.fs`torn, fp.fs`fsiFlag, fp.fs`lastClst
    ensures fp.Shaped() && old(fp.fs.Log()).Onward(fp.fs.Log())
    ensures OthersKept(fp.fs.g, old(DevOf(fp.fs)), old(fp.chain), DevOf(fp.fs), fp.chain)
    ensures old(fp.chain) <= fp.chain
    ensures res == Ok ==> old(fp.Kept()).Untouched(fp.Kept()) || (clst != 0 && fp.objsize == 0)
    ensures res == Ok || (res == DiskErr && fp.fs.faults > old(fp.fs.faults)) || (res == IntErr && DamagedFat(fp.fs))
    ensures res == Ok ==> fp.Placed() && Clean(fp.fs.g, DevOf(fp.fs), fp.View()) && fp.Data() == old(fp.Data())
    ensures res == Ok && old(FreeOk(fp.fs)) ==> FreeOk(fp.fs)
    ensures res == Ok && clst == 0 ==> NoCluster(fp.fs) && fp.chain == []
    ensures res == Ok && clst != 0 ==> clst == fp.clust && AtCluster(fp.fs.g, fp.View(), 0)
  {
    hide FatFs.FsInfoTold, FatFs.Valid, FatFs.Fat, FatFs.Logical, Laid, Clean, Sectors, BytesOf, OthersKept, NoCluster, DamagedFat,
         FreeCount;
    ghost var g, d, f := fp.fs.g, DevOf(fp.fs), fp.View();
    NoChainNoCluster(g, d, f);
    clst := fp.sclust;
    if clst == 0 {
      clst := Stretch(fp, 0, 0);
      if clst == 1 { return IntErr, clst; }
      if clst == DISK_ERROR { return DiskErr, clst; }
    } else {
      FirstCluster(fp);
      NothingChanged(g, d, f.chain);
    }
    CursorIgnored(g, DevOf(fp.fs), fp.View(), 0, clst);
    ghost var f1 := fp.View();
    fp.clust := clst;
    assert fp.View() == f1.(fptr := 0, clust := clst);
    res := Ok;
  }

  lemma NoChainNoCluster(g: Geometry, d: Dev, f: FileView)
    requires Laid(g, d, f)
    ensures f.sclust == 0 ==> f.chain == [] && f.objsize == 0
  {
  }

  /** get_fat of the current cluster, seen from the file. */
  method NextForRead(fp: File) returns (clst: Dword)
    requires fp.Placed() && Clean(fp.fs.g, DevOf(fp.fs), fp.View()) && 2 <= fp.clust < fp.fs.g.nFatent
    modifies fp.fs`disk, fp.fs`wflag, fp.fs`faults, fp.fs`lostWrites, fp.fs`winsect, fp.fs.win
    ensures fp.Placed() && Clean(fp.fs.g, DevOf(fp.fs), fp.View()) && fp.Data() == old(fp.Data())
    ensures old(fp.fs.Log()).Onward(fp.fs.Log()) && fp.fs.Fat() == old(fp.fs.Fat())
    ensures old(fp.Kept()).Untouched(fp.Kept())
    ensures OthersKept(fp.fs.g, old(DevOf(fp.fs)), fp.chain, DevOf(fp.fs), fp.chain)
    ensures if clst == DISK_ERROR then fp.fs.faults > old(fp.fs.faults) else clst == fp.fs.Fat()[fp.clust]
  {
    hide FatFs.FsInfoTold, FatFs.Valid, FatFs.Fat, FatFs.Logical, FatFs.Image, Laid, Clean, Sectors, BytesOf, OthersKept, DataKept,
         PowerOfTwo;
    ghost var g, d := fp.fs.g, DevOf(fp.fs);
    VolumeIsGood(fp.fs);
    clst := GetFat(fp.fs, fp.clust);
    ghost var d' := DevOf(fp.fs);
    KeptSize(g, d.disk, d.winsect, d'.disk, d'.winsect);
    WindowMoved(g, d, d', fp.View());
    ReadOnlyStep(g, d, d', fp.chain);
    if fp.dirty { BufferClear(g, d, d', fp.sect); }
  }

  /** The cluster behind the q-th: create_chain in write mode, get_fat otherwise. */
  method NextForSeek(fp: File, ghost q: nat) returns (clst: Dword)
    requires fp.Placed() && Clean(fp.fs.g, DevOf(fp.fs), fp.View()) && q < |fp.chain| && fp.clust == fp.chain[q]
    requires fp.canWrite || q + 1 < |fp.chain|
    modifies fp`chain, fp`sclust, fp.fs`disk, fp.fs`wflag, fp.fs`faults, fp.fs`lostWrites, fp.fs`winsect, fp.fs.win,
             fp.fs`freeClst, fp.fs`torn, fp.fs`fsiFlag, fp.fs`lastClst
    ensures fp.Shaped() && old(fp.fs.Log()).Onward(fp.fs.Log())
    ensures OthersKept(fp.fs.g, old(DevOf(fp.fs)), old(fp.chain), DevOf(fp.fs), fp.chain)
    ensures old(fp.chain) <= fp.chain && (fp.chain != old(fp.chain) ==> q + 1 == |old(fp.chain)|)
    ensures clst == DISK_ERROR ==> fp.fs.faults > old(fp.fs.faults)
    ensures clst != DISK_ERROR ==> fp.Placed() && Clean(fp.fs.g, DevOf(fp.fs), fp.View()) && fp.Data() == old(fp.Data())
    ensures clst != DISK_ERROR && old(FreeOk(fp.fs)) ==> FreeOk(fp.fs)
    ensures clst != DISK_ERROR && fp.chain == old(fp.chain) ==> old(fp.Kept()).Untouched(fp.Kept())
    ensures clst == 0 ==> fp.canWrite && NoCluster(fp.fs) && fp.chain == old(fp.chain) && q + 1 == |fp.chain|
    ensures clst == 1 ==> DamagedFat(fp.fs)
    ensures 2 <= clst && clst != DISK_ERROR ==> q + 1 < |fp.chain| && fp.chain[q + 1] == clst < fp.fs.g.nFatent
  {
    hide FatFs.FsInfoTold, FatFs.Valid, FatFs.Fat, FatFs.Logical, Laid, Clean, Sectors, BytesOf, OthersKept, NoCluster, DamagedFat,
         FreeCount;
    VolumeIsGood(fp.fs);
    LinkInChain(fp.fs.g, DevOf(fp.fs), fp.View(), q);
    if fp.canWrite {
      clst := Stretch(fp, fp.clust, q + 1);
      if clst >= 2 && clst != DISK_ERROR { ClusterInRange(fp.fs.g, DevOf(fp.fs), fp.View(), q + 1); }
    } else {
      clst := NextForRead(fp);
    }
  }

  lemma LinkInChain(g: Geometry, d: Dev, f: FileView, q: nat)
    requires Laid(g, d, f) && q < |f.chain| && f.clust == f.chain[q]
    ensures 2 <= f.clust < g.nFatent < 0x1000_0000 && f.clust < |d.fat|
    ensures q + 1 < |f.chain| ==> d.fat[f.clust] == f.chain[q + 1] && 2 <= f.chain[q + 1] < g.nFatent
  {
    hide Sectors, PowerOfTwo;
    ChainAllocated(d.fat, f.chain);
    assert f.clust in f.chain;
    if q + 1 < |f.chain| { assert f.chain[q + 1] in f.chain; }
  }

  /** One link further; in write mode a missing link is made. */
  method SeekNext(fp: File, ghost q: nat, ghost target: nat) returns (res: FResult, clst: Dword)
    requires fp.Placed() && Clean(fp.fs.g, DevOf(fp.fs), fp.View()) && AtCluster(fp.fs.g, fp.View(), q)
    requires fp.fptr + 512 * fp.fs.g.csize < target < 0x1_0000_0000 && (fp.canWrite || target <= fp.objsize)
    modifies fp`clust, fp`fptr, fp`chain, fp`sclust, fp.fs`disk, fp.fs`wflag, fp.fs`faults, fp.fs`lostWrites, fp.fs`winsect, fp.fs.win,
             fp.fs`freeClst, fp.fs`torn, fp.fs`fsiFlag, fp.fs`lastClst
    ensures fp.Shaped() && old(fp.fs.Log()).Onward(fp.fs.Log())
    ensures OthersKept(fp.fs.g, old(DevOf(fp.fs)), old(fp.chain), DevOf(fp.fs), fp.chain)
    ensures old(fp.chain) <= fp.chain
    ensures res == Ok ==> old(fp.Kept()).Untouched(fp.Kept()) || (clst != 0 && fp.objsize <= fp.fptr)
    ensures res == Ok || (res == DiskErr && fp.fs.faults > old(fp.fs.faults)) || (res == IntErr && DamagedFat(fp.fs))
    ensures res == Ok ==> fp.Placed() && Clean(fp.fs.g, DevOf(fp.fs), fp.View()) && fp.Data() == old(fp.Data())
    ensures res == Ok && old(FreeOk(fp.fs)) ==> FreeOk(fp.fs)
    ensures fp.fptr == old(fp.fptr) + 512 * fp.fs.g.csize
    ensures res == Ok && clst == 0 ==>
              fp.canWrite && NoCluster(fp.fs) && fp.chain == old(fp.chain) && fp.clust == old(fp.clust) && q + 1 == |fp.chain|
    ensures res == Ok && clst != 0 ==> clst == fp.clust && AtCluster(fp.fs.g, fp.View(), q + 1)
  {
    hide FatFs.FsInfoTold, FatFs.Valid, FatFs.Fat, FatFs.Logical, Laid, Clean, Sectors, BytesOf, OthersKept, NoCluster, DamagedFat,
         FreeCount, PowerOfTwo;
    ghost var g, d, f := fp.fs.g, DevOf(fp.fs), fp.View();
    VolumeIsGood(fp.fs);
    ClusterInChain(g, d, f, q, target);
    var bcs := fp.fs.g.csize * 512;
    CursorIgnored(g, d, f, f.fptr + bcs, f.clust);
    fp.fptr := fp.fptr + bcs;
    assert fp.View() == f.(fptr := f.fptr + bcs, clust := f.clust);
    clst := NextForSeek(fp, q);
    if clst == 0 && fp.canWrite { return Ok, 0; }
    if clst == DISK_ERROR { return DiskErr, clst; }
    if clst <= 1 || clst >= fp.fs.g.nFatent { return IntErr, clst; }
    CursorIgnored(g, DevOf(fp.fs), fp.View(), fp.fptr, clst);
    ghost var f1 := fp.View();
    fp.clust := clst;
    assert fp.View() == f1.(fptr := f1.fptr, clust := clst);
    res := Ok;
  }

  lemma ClusterInRange(g: Geometry, d: Dev, f: FileView, j: nat)
    requires Laid(g, d, f) && j < |f.chain|
    ensures 2 <= f.chain[j] < g.nFatent
  {
    hide Sectors, PowerOfTwo;
    ChainAllocated(d.fat, f.chain);
    assert f.chain[j] in f.chain;
  }

  lemma ReadOnlyStep(g: Geometry, d: Dev, d': Dev, chain: seq<nat>)
    requires d'.fat == d.fat && DataKept(g, d.disk, d.winsect, d'.disk, d'.winsect) && d'.view == d.view && d.log.Onward(d'.log)
    requires |d.fat| == g.nFatent && g.fatbase + g.FatArea() <= g.database
    ensures OthersKept(g, d, chain, d', chain)
  {
    FatChangedForChain(g, d, chain, d', chain);
  }

  /** Where the cluster search ends: on the target's cluster, or behind the last one. */
  ghost predicate Arrived(g: Geometry, f: FileView, rest: nat, q: nat, target: nat) {
    && 0 < rest <= 512 * g.csize && AtCluster(g, f, q) && f.fptr + rest == target
  }

  ghost predicate RanOut(g: Geometry, f: FileView, q: nat, target: nat) {
    && q + 1 == |f.chain| && f.clust == f.chain[q]
    && f.fptr == 512 * g.csize * q + 512 * g.csize < target
  }

  /** The cluster following loop. */
  method SeekLoop(fp: File, todo: Dword, ghost from: nat, ghost target: nat) returns (res: FResult, rest: Dword, ghost q: nat)
    requires fp.Placed() && Clean(fp.fs.g, DevOf(fp.fs), fp.View()) && AtCluster(fp.fs.g, fp.View(), from)
    requires 0 < todo && fp.fptr + todo == target < 0x1_0000_0000 && (fp.canWrite || target <= fp.objsize)
    modifies fp`clust, fp`fptr, fp`chain, fp`sclust, fp.fs`disk, fp.fs`wflag, fp.fs`faults, fp.fs`lostWrites, fp.fs`winsect, fp.fs.win,
             fp.fs`freeClst, fp.fs`torn, fp.fs`fsiFlag, fp.fs`lastClst
    ensures fp.Shaped() && old(fp.fs.Log()).Onward(fp.fs.Log())
    ensures OthersKept(fp.fs.g, old(DevOf(fp.fs)), old(fp.chain), DevOf(fp.fs), fp.chain)
    ensures old(fp.chain) <= fp.chain
    ensures res == Ok ==> 0 < fp.fptr + rest && (rest != 0 ==> fp.fptr + rest == target)
    ensures res == Ok ==> old(fp.Kept()).Untouched(fp.Kept()) || fp.objsize < fp.fptr + rest
    ensures res == Ok || (res == DiskErr && fp.fs.faults > old(fp.fs.faults)) || (res == IntErr && DamagedFat(fp.fs))
    ensures res == Ok ==> fp.Placed() && Clean(fp.fs.g, DevOf(fp.fs), fp.View()) && fp.Data() == old(fp.Data())
    ensures res == Ok && old(FreeOk(fp.fs)) ==> FreeOk(fp.fs)
    ensures res == Ok && rest != 0 ==> Arrived(fp.fs.g, fp.View(), rest, q, target)
    ensures res == Ok && rest == 0 ==> fp.canWrite && NoCluster(fp.fs) && RanOut(fp.fs.g, fp.View(), q, target)
  {
    hide FatFs.FsInfoTold, FatFs.Valid, FatFs.Fat, FatFs.Logical, Laid, Clean, Sectors, BytesOf, OthersKept, NoCluster, FreeCount, FreeOk,
         DamagedFat;
    ghost var g, d, chain, data := fp.fs.g, DevOf(fp.fs), fp.chain, fp.Data();
    VolumeIsGood(fp.fs);
    NothingChanged(g, d, chain);
    res, rest, q := Ok, todo, from;
    var bcs := fp.fs.g.csize * 512;
    while rest > bcs
      invariant fp.Placed() && Clean(g, DevOf(fp.fs), fp.View()) && fp.Data() == data
      invariant old(fp.fs.Log()).Onward(fp.fs.Log()) && res == Ok
      invariant OthersKept(g, d, chain, DevOf(fp.fs), fp.chain)
      invariant chain <= fp.chain && (old(fp.Kept()).Untouched(fp.Kept()) || fp.objsize <= fp.fptr)
      invariant old(FreeOk(fp.fs)) ==> FreeOk(fp.fs)
      invariant AtCluster(g, fp.View(), q) && 0 < rest && fp.fptr + rest == target
      decreases rest
    {
      ghost var d1, c1 := DevOf(fp.fs), fp.chain;
      var clst;
      rest := rest - bcs;
      res, clst := SeekNext(fp, q, target);
      OthersOnward(g, d, chain, d1, c1, DevOf(fp.fs), fp.chain);
      if res != Ok { return; }
      if clst == 0 {
        return Ok, 0, q;
      }
      q := q + 1;
    }
  }

  // ------------------------------------------------------------- arriving

  /** A file size raised within the chain: the old bytes stay, the new ones are whatever the sectors hold. */
  lemma SizeRaised(g: Geometry, d: Dev, f: FileView, n: nat)
    requires Laid(g, d, f) && f.objsize <= n <= 512 * |Sectors(g, f.chain)|
    ensures Laid(g, d, f.(objsize := n))
    ensures BytesOf(g, d, f.(objsize := n))[..f.objsize] == BytesOf(g, d, f)
  {
    hide Sectors, IsChain, PowerOfTwo;
    FileSectors(g, d, f);
    FileSectors(g, d, f.(objsize := n));
  }

  /** At the target: clust is right, and the sector to load is the one of byte fptr. */
  lemma TargetSector(g: Geometry, d: Dev, f: FileView, rest: nat, q: nat, target: nat)
    requires Laid(g, d, f) && Arrived(g, f, rest, q, target)
    ensures 0 < g.csize && target <= 512 * |Sectors(g, f.chain)|
    ensures OnCluster(g, f, (target - 1) / 512)
    ensures rest % 512 == target % 512
    ensures target % 512 != 0 ==> var k := target / 512;
              && k < |Sectors(g, f.chain)| && 0 < Clst2Sect(g, f.clust)
              && Sectors(g, f.chain)[k] == Clst2Sect(g, f.clust) + rest / 512
              && g.database <= Sectors(g, f.chain)[k] < |d.disk| <= 0xFFFF_FFFF
              && Sectors(g, f.chain)[k] != d.winsect && Sectors(g, f.chain)[k] != f.dirSect
  {
    hide Sectors, IsChain, PowerOfTwo, GoodVolume;
    assert GoodVolume(g, d);
    GoodBounds(g, d);
    FileSectors(g, d, f);
    InClusterIndex(g, target, q);
    ClusterEnd(g.csize, q, |f.chain|);
    SameResidue(g.csize, q, rest);
    if target % 512 != 0 {
      SectorOfCluster(g, d, f, target / 512);
    }
  }

  lemma ClusterEnd(c: nat, q: nat, n: nat)
    requires q < n
    ensures 512 * c * q + 512 * c <= 512 * (n * c)
  {
    var b := 512 * c;
    assert 512 * (n * c) == b * n && b * (q + 1) == b * q + b;
    MulMono(b, q + 1, n);
  }

  lemma SameResidue(c: nat, q: nat, rest: nat)
    ensures (512 * c * q + rest) % 512 == rest % 512
  {
    var m := c * q;
    assert 512 * c * q == 512 * m;
  }

  ghost predicate Extends(b: seq<Byte>, c: seq<Byte>) {
    |b| <= |c| && c[..|b|] == b
  }

  /** "set file change flag if the file size is extended". */
  method RaiseSize(fp: File, n: Dword)
    requires fp.Placed() && Clean(fp.fs.g, DevOf(fp.fs), fp.View()) && n <= 512 * |Sectors(fp.fs.g, fp.chain)|
    modifies fp`objsize, fp`modified
    ensures fp.Placed() && Clean(fp.fs.g, DevOf(fp.fs), fp.View())
    ensures fp.objsize == Max(n, old(fp.objsize)) && Extends(old(fp.Data()), fp.Data())
    ensures fp.modified == (old(fp.modified) || n > old(fp.objsize))
  {
    hide FatFs.FsInfoTold, FatFs.Valid, FatFs.Fat, FatFs.Logical, Laid, Sectors, BytesOf;
    if n > fp.objsize {
      SizeRaised(fp.fs.g, DevOf(fp.fs), fp.View(), n);
      ghost var f := fp.View();
      fp.objsize := n;
      fp.modified := true;
      assert fp.View() == f.(objsize := n);
    } else {
      assert fp.Data()[..fp.objsize] == fp.Data();
    }
  }

  /** The target's cluster is found: set the position and load its sector if it lies inside one. */
  method SeekArrive(fp: File, rest: Dword, ghost q: nat, target: Dword) returns (res: FResult)
    requires fp.Placed() && Clean(fp.fs.g, DevOf(fp.fs), fp.View()) && Arrived(fp.fs.g, fp.View(), rest, q, target)
    modifies fp`fptr, fp`objsize, fp`modified, fp`dirty, fp`sect, fp.buf, fp.fs`disk, fp.fs`faults, fp.fs`lostWrites
    ensures fp.Shaped() && old(fp.fs.Log()).Onward(fp.fs.Log()) && fp.fs.Fat() == old(fp.fs.Fat())
    ensures OthersKept(fp.fs.g, old(DevOf(fp.fs)), old(fp.chain), DevOf(fp.fs), fp.chain)
    ensures res == Ok || (res == DiskErr && fp.fs.faults > old(fp.fs.faults))
    ensures res == Ok ==> fp.Placed() && Clean(fp.fs.g, DevOf(fp.fs), fp.View()) && 0 < fp.fs.g.csize && Cursor(fp.fs.g, fp.View())
    ensures res == Ok && old(Holds(fp.fs.g, fp.chain, fp.sect)) ==> Holds(fp.fs.g, fp.chain, fp.sect)
    ensures res == Ok ==> fp.fptr == target && fp.objsize == Max(target, old(fp.objsize)) && Extends(old(fp.Data()), fp.Data())
    ensures res == Ok ==> fp.modified == (old(fp.modified) || target > old(fp.objsize)) && old(fp.Kept()).Untouched(fp.Kept())
  {
    hide FatFs.FsInfoTold, FatFs.Valid, FatFs.Fat, FatFs.Logical, Laid, Clean, Sectors, BytesOf, Cursor, OthersKept, OnCluster, Holds;
    ghost var g, d, f := fp.fs.g, DevOf(fp.fs), fp.View();
    TargetSector(g, d, f, rest, q, target);
    CursorIgnored(g, d, f, target, f.clust);
    fp.fptr := target;
    assert fp.View() == f.(fptr := target, clust := f.clust);
    RaiseSize(fp, target);
    ghost var f1 := fp.View();
    if target % 512 != 0 {
      var nsect := Clst2Sect(fp.fs.g, fp.clust) + rest / 512;
      res := LoadSector(fp, nsect);
      LoadedOthers(g, d, f1, DevOf(fp.fs));
      if res != Ok { return; }
      HoldsSector(g, fp.chain, target / 512);
    } else {
      NothingChanged(g, d, f.chain);
      res := Ok;
    }
    OnClusterKept(g, f, fp.View(), (target - 1) / 512);
    SeekCursor(g, fp.View());
  }

  lemma LoadedOthers(g: Geometry, d: Dev, f: FileView, d': Dev)
    requires Laid(g, d, f) && OnlySector(d, d', f.dirty, f.sect)
    ensures OthersKept(g, d, f.chain, d', f.chain)
  {
    FlushedOthers(g, d, f, d');
  }

  lemma SeekCursor(g: Geometry, f: FileView)
    requires 0 < g.csize && 0 < f.fptr <= f.objsize && OnCluster(g, f, (f.fptr - 1) / 512)
    requires f.fptr % 512 != 0 ==> OnSector(g, f, f.fptr / 512)
    ensures Cursor(g, f)
  {
  }

  /** The chain could not be stretched: the position stays behind its last cluster. */
  method SeekFull(fp: File, ghost q: nat, ghost target: nat)
    requires fp.Placed() && Clean(fp.fs.g, DevOf(fp.fs), fp.View()) && RanOut(fp.fs.g, fp.View(), q, target)
    modifies fp`objsize, fp`modified
    ensures fp.Placed() && Clean(fp.fs.g, DevOf(fp.fs), fp.View()) && 0 < fp.fs.g.csize && Cursor(fp.fs.g, fp.View())
    ensures fp.objsize == Max(fp.fptr, old(fp.objsize)) == fp.fptr && Extends(old(fp.Data()), fp.Data())
    ensures fp.modified == (old(fp.modified) || fp.fptr > old(fp.objsize))
  {
    hide FatFs.FsInfoTold, FatFs.Valid, FatFs.Fat, FatFs.Logical, Laid, Clean, Sectors, BytesOf;
    ghost var g, d, f := fp.fs.g, DevOf(fp.fs), fp.View();
    BehindLast(g, d, f, q, target);
    RaiseSize(fp, fp.fptr);
  }

  lemma BehindLast(g: Geometry, d: Dev, f: FileView, q: nat, target: nat)
    requires Laid(g, d, f) && RanOut(g, f, q, target)
    ensures 0 < g.csize && f.objsize <= f.fptr <= 512 * |Sectors(g, f.chain)|
    ensures f.fptr > 0 && f.fptr % 512 == 0 && OnCluster(g, f, (f.fptr - 1) / 512)
  {
    hide Sectors, IsChain, PowerOfTwo, GoodVolume;
    assert GoodVolume(g, d);
    GoodBounds(g, d);
    FileSectors(g, d, f);
    assert InCluster(g, f.fptr, q);
    InClusterIndex(g, f.fptr, q);
    ClusterEnd(g.csize, q, |f.chain|);
    ClusterStarts(g.csize, q, |f.chain|, f.objsize, 0);
    SameResidue(g.csize, q + 1, 0);
  }

  // ------------------------------------------------------------- f_lseek

  lemma StartCursor(g: Geometry, f: FileView)
    requires 0 < g.csize && f.fptr == 0
    ensures Cursor(g, f)
  {
  }

  lemma CursorCluster(g: Geometry, f: FileView, f': FileView)
    requires 0 < g.csize && Cursor(g, f) && f'.chain == f.chain && f'.clust == f.clust
    ensures f.fptr > 0 ==> OnCluster(g, f', (f.fptr - 1) / 512)
  {
  }

  /** From the current or the first cluster to the target's. */
  method SeekLocate(fp: File, target: Dword, ifptr: Dword) returns (res: FResult, none: bool, rest: Dword, ghost q: nat)
    requires fp.Placed() && Clean(fp.fs.g, DevOf(fp.fs), fp.View()) && fp.fptr == 0 && 0 < target
    requires fp.canWrite || target <= fp.objsize
    requires 0 < fp.fs.g.csize && PowerOfTwo(fp.fs.g.csize) && (ifptr > 0 ==> OnCluster(fp.fs.g, fp.View(), (ifptr - 1) / 512))
    modifies fp`clust, fp`fptr, fp`chain, fp`sclust, fp.fs`disk, fp.fs`wflag, fp.fs`faults, fp.fs`lostWrites, fp.fs`winsect, fp.fs.win,
             fp.fs`freeClst, fp.fs`torn, fp.fs`fsiFlag, fp.fs`lastClst
    ensures fp.Shaped() && old(fp.fs.Log()).Onward(fp.fs.Log())
    ensures OthersKept(fp.fs.g, old(DevOf(fp.fs)), old(fp.chain), DevOf(fp.fs), fp.chain)
    ensures old(fp.chain) <= fp.chain
    ensures res == Ok && !none && rest != 0 ==> fp.fptr + rest == target
    ensures res == Ok ==> old(fp.Kept()).Untouched(fp.Kept()) || (!none && fp.objsize < fp.fptr + rest)
    ensures res == Ok || (res == DiskErr && fp.fs.faults > old(fp.fs.faults)) || (res == IntErr && DamagedFat(fp.fs))
    ensures res == Ok ==> fp.Placed() && Clean(fp.fs.g, DevOf(fp.fs), fp.View()) && fp.Data() == old(fp.Data())
    ensures res == Ok && old(FreeOk(fp.fs)) ==> FreeOk(fp.fs)
    ensures res == Ok && none ==> NoCluster(fp.fs) && fp.fptr == 0 == fp.objsize && 0 < fp.fs.g.csize && fp.canWrite
    ensures res == Ok && !none && rest != 0 ==> Arrived(fp.fs.g, fp.View(), rest, q, target)
    ensures res == Ok && !none && rest == 0 ==> fp.canWrite && NoCluster(fp.fs) && RanOut(fp.fs.g, fp.View(), q, target)
  {
    hide FatFs.FsInfoTold, FatFs.Valid, FatFs.Fat, FatFs.Logical, Laid, Clean, Sectors, BytesOf, OthersKept, NoCluster, FreeCount, FreeOk,
         DamagedFat, PowerOfTwo, OnCluster, AtCluster, Arrived, RanOut;
    VolumeIsGood(fp.fs);
    ghost var g, d, f := fp.fs.g, DevOf(fp.fs), fp.View();
    NothingChanged(g, d, f.chain);
    none, res := false, Ok;
    var clst;
    if ifptr > 0 && (target - 1) / (512 * fp.fs.g.csize) >= (ifptr - 1) / (512 * fp.fs.g.csize) {
      clst, rest, q := SeekCurrent(fp, target, ifptr);
    } else {
      res, clst := SeekFirst(fp);
      rest, q := target, 0;
      if res != Ok { return; }
      if clst == 0 {
        NoBytes(g, DevOf(fp.fs), fp.View());
        none := true;
        return;
      }
    }
    ghost var d1, c1 := DevOf(fp.fs), fp.chain;
    res, rest, q := SeekLoop(fp, rest, q, target);
    OthersOnward(g, d, f.chain, d1, c1, DevOf(fp.fs), fp.chain);
  }

  /** With the search over: at the target, behind the last cluster, or with no cluster at all. */
  method SeekSettle(fp: File, target: Dword, none: bool, rest: Dword, ghost q: nat) returns (res: FResult)
    requires fp.Placed() && Clean(fp.fs.g, DevOf(fp.fs), fp.View()) && 0 < fp.fs.g.csize
    requires none ==> fp.fptr == 0 == fp.objsize
    requires !none ==> if rest != 0 then Arrived(fp.fs.g, fp.View(), rest, q, target) else RanOut(fp.fs.g, fp.View(), q, target)
    modifies fp`fptr, fp`objsize, fp`modified, fp`dirty, fp`sect, fp.buf, fp.fs`disk, fp.fs`faults, fp.fs`lostWrites
    ensures fp.Shaped() && old(fp.fs.Log()).Onward(fp.fs.Log()) && fp.fs.Fat() == old(fp.fs.Fat())
    ensures OthersKept(fp.fs.g, old(DevOf(fp.fs)), fp.chain, DevOf(fp.fs), fp.chain)
    ensures res == Ok || (res == DiskErr && fp.fs.faults > old(fp.fs.faults))
    ensures res == Ok ==> fp.Placed() && Clean(fp.fs.g, DevOf(fp.fs), fp.View()) && Cursor(fp.fs.g, fp.View())
    ensures res == Ok && old(Holds(fp.fs.g, fp.chain, fp.sect)) ==> Holds(fp.fs.g, fp.chain, fp.sect)
    ensures res == Ok ==> fp.fptr == if !none && rest != 0 then target else old(fp.fptr)
    ensures res == Ok ==> fp.objsize == Max(fp.fptr, old(fp.objsize)) && Extends(old(fp.Data()), fp.Data())
    ensures res == Ok ==> fp.modified == (old(fp.modified) || fp.objsize > old(fp.objsize)) && old(fp.Kept()).Untouched(fp.Kept())
    ensures res == Ok && fp.fptr != target && !none ==> old(fp.objsize) <= fp.fptr < target
  {
    hide FatFs.FsInfoTold, FatFs.Valid, FatFs.Fat, FatFs.Logical, Laid, Clean, Sectors, BytesOf, Cursor, OthersKept, Holds, Arrived, RanOut;
    NothingChanged(fp.fs.g, DevOf(fp.fs), fp.chain);
    res := Ok;
    if none {
      StartCursor(fp.fs.g, fp.View());
    } else if rest != 0 {
      res := SeekArrive(fp, rest, q, target);
    } else {
      RanOutShort(fp.fs.g, fp.View(), q, target);
      SeekFull(fp, q, target);
    }
  }

  /** The whole search, with the position set to 0 before. */
  method SeekFromStart(fp: File, target: Dword, ifptr: Dword) returns (res: FResult)
    requires fp.Placed() && Clean(fp.fs.g, DevOf(fp.fs), fp.View()) && fp.fptr == 0 && 0 < target
    requires fp.canWrite || target <= fp.objsize
    requires 0 < fp.fs.g.csize && PowerOfTwo(fp.fs.g.csize) && (ifptr > 0 ==> OnCluster(fp.fs.g, fp.View(), (ifptr - 1) / 512))
    modifies fp`clust, fp`chain, fp`sclust, fp`dirty, fp`sect, fp`fptr, fp`objsize, fp`modified, fp.buf,
             fp.fs`disk, fp.fs`wflag, fp.fs`faults, fp.fs`lostWrites, fp.fs`winsect, fp.fs.win, fp.fs`freeClst, fp.fs`torn, fp.fs`fsiFlag,
             fp.fs`lastClst
    ensures fp.Shaped() && old(fp.fs.Log()).Onward(fp.fs.Log())
    ensures OthersKept(fp.fs.g, old(DevOf(fp.fs)), old(fp.chain), DevOf(fp.fs), fp.chain)
    ensures old(fp.chain) <= fp.chain
    ensures res == Ok || (res == DiskErr && fp.fs.faults > old(fp.fs.faults)) || (res == IntErr && DamagedFat(fp.fs))
    ensures res == Ok && old(Holds(fp.fs.g, fp.chain, fp.sect)) ==> Holds(fp.fs.g, fp.chain, fp.sect)
    ensures res == Ok && old(FreeOk(fp.fs)) ==> FreeOk(fp.fs)
    ensures res == Ok ==> fp.Placed() && Clean(fp.fs.g, DevOf(fp.fs), fp.View()) && Cursor(fp.fs.g, fp.View())
    ensures res == Ok ==> Extends(old(fp.Data()), fp.Data()) && fp.objsize == Max(fp.fptr, old(fp.objsize))
    ensures res == Ok ==> fp.modified == (old(fp.modified) || fp.objsize > old(fp.objsize))
    ensures res == Ok && fp.objsize == old(fp.objsize) ==> old(fp.Kept()).Untouched(fp.Kept())
    ensures res == Ok && fp.fptr != target ==> fp.canWrite && NoCluster(fp.fs) && old(fp.objsize) <= fp.fptr < target
  {
    hide FatFs.FsInfoTold, FatFs.Valid, FatFs.Fat, FatFs.Logical, Laid, Clean, Sectors, BytesOf, OthersKept, FreeCount, DamagedFat,
         PowerOfTwo, Cursor, OnCluster, AtCluster, Arrived, RanOut, Holds;
    VolumeIsGood(fp.fs);
    ghost var g, d, chain := fp.fs.g, DevOf(fp.fs), fp.chain;
    var none, rest;
    ghost var q;
    res, none, rest, q := SeekLocate(fp, target, ifptr);
    HoldsMore(g, chain, fp.chain, fp.sect);
    if res != Ok { return; }
    ghost var d1, c1 := DevOf(fp.fs), fp.chain;
    res := SeekSettle(fp, target, none, rest, q);
    OthersOnward(g, d, chain, d1, c1, DevOf(fp.fs), fp.chain);
  }

  /** The normal seek to a target that a read-only file has already clipped to its size. */
  method SeekTarget(fp: File, target: Dword) returns (res: FResult)
    requires fp.Inv() && fp.err == Ok && (fp.canWrite || target <= fp.objsize)
    modifies fp`clust, fp`chain, fp`sclust, fp`dirty, fp`sect, fp`fptr, fp`objsize, fp`modified, fp.buf,
             fp.fs`disk, fp.fs`wflag, fp.fs`faults, fp.fs`lostWrites, fp.fs`winsect, fp.fs.win, fp.fs`freeClst, fp.fs`torn, fp.fs`fsiFlag,
             fp.fs`lastClst
    ensures fp.Shaped() && old(fp.fs.Log()).Onward(fp.fs.Log())
    ensures OthersKept(fp.fs.g, old(DevOf(fp.fs)), old(fp.chain), DevOf(fp.fs), fp.chain)
    ensures old(fp.chain) <= fp.chain
    ensures res == Ok || (res == DiskErr && fp.fs.faults > old(fp.fs.faults)) || (res == IntErr && DamagedFat(fp.fs))
    ensures res == Ok && old(Holds(fp.fs.g, fp.chain, fp.sect)) ==> Holds(fp.fs.g, fp.chain, fp.sect)
    ensures res == Ok && old(FreeOk(fp.fs)) ==> FreeOk(fp.fs)
    ensures res == Ok ==> fp.Inv() && fp.Placed() && Extends(old(fp.Data()), fp.Data())
    ensures res == Ok ==> fp.objsize == Max(fp.fptr, old(fp.objsize))
    ensures res == Ok ==> fp.modified == (old(fp.modified) || fp.objsize > old(fp.objsize))
    ensures res == Ok && fp.objsize == old(fp.objsize) ==> old(fp.Kept()).Untouched(fp.Kept())
    ensures res == Ok && fp.fptr != target ==> fp.canWrite && NoCluster(fp.fs) && old(fp.objsize) <= fp.fptr < target
  {
    hide FatFs.FsInfoTold, FatFs.Valid, FatFs.Fat, FatFs.Logical, Laid, Clean, Sectors, BytesOf, OthersKept, FreeCount, DamagedFat,
         PowerOfTwo, Cursor, OnCluster, AtCluster, Arrived, RanOut, Holds;
    FileFacts(fp);
    VolumeIsGood(fp.fs);
    ghost var g, d, f := fp.fs.g, DevOf(fp.fs), fp.View();
    var ifptr := fp.fptr;
    CursorIgnored(g, d, f, 0, f.clust);
    fp.fptr := 0;
    assert fp.View() == f.(fptr := 0, clust := f.clust);
    CursorCluster(g, f, fp.View());
    if target == 0 {
      NothingChanged(g, d, f.chain);
      StartCursor(g, fp.View());
      return Ok;
    }
    res := SeekFromStart(fp, target, ifptr);
  }

  lemma RanOutShort(g: Geometry, f: FileView, q: nat, target: nat)
    requires RanOut(g, f, q, target)
    ensures f.fptr < target
  {
  }

  lemma NoBytes(g: Geometry, d: Dev, f: FileView)
    requires Laid(g, d, f) && f.chain == []
    ensures f.objsize == 0
  {
  }

  method Lseek(fp: File, ofs: Dword) returns (res: FResult)
    requires fp.Inv()
    modifies fp`clust, fp`chain, fp`sclust, fp`dirty, fp`sect, fp`fptr, fp`objsize, fp`modified, fp`err, fp.buf, fp.fs`alive, fp.fs`disk,
             fp.fs`wflag, fp.fs`faults, fp.fs`lostWrites, fp.fs`winsect, fp.fs.win, fp.fs`freeClst, fp.fs`torn, fp.fs`fsiFlag,
             fp.fs`lastClst
    ensures if fp.fs.alive then old(fp.fs.alive) else res == InvalidObject
    ensures fp.Inv() && old(fp.fs.Log()).Onward(fp.fs.Log())
    ensures old(fp.err) == Ok ==> OthersKept(fp.fs.g, old(DevOf(fp.fs)), old(fp.chain), DevOf(fp.fs), fp.chain)
    ensures old(fp.chain) <= fp.chain
    ensures res == Ok ==> old(fp.err) == Ok == fp.err && fp.Placed()
    ensures res == Ok && old(Holds(fp.fs.g, fp.chain, fp.sect)) ==> Holds(fp.fs.g, fp.chain, fp.sect)
    ensures res == Ok && old(FreeOk(fp.fs)) ==> FreeOk(fp.fs)
    // the old bytes stay; the size grows only to the new position
    ensures res == Ok ==> Extends(old(fp.Data()), fp.Data()) && fp.objsize == Max(fp.fptr, old(fp.objsize))
    // then the flag is set; otherwise it stays, and nothing is written unless something had to be
    ensures res == Ok ==> fp.modified == (old(fp.modified) || fp.objsize > old(fp.objsize))
    ensures res == Ok && fp.objsize == old(fp.objsize) ==> old(fp.Kept()).Untouched(fp.Kept())
    // inside the file, and always in read-only mode, the position is the one asked for, clipped to the size
    ensures res == Ok && (ofs <= old(fp.objsize) || !fp.canWrite) ==>
              fp.fptr == Min(ofs, old(fp.objsize)) && fp.Data() == old(fp.Data())
    // beyond it, in write mode, the file is stretched as far as there are clusters
    ensures res == Ok && fp.fptr < ofs && fp.canWrite ==> NoCluster(fp.fs) && old(fp.objsize) <= fp.fptr
    ensures res == Ok && fp.canWrite ==> fp.fptr <= ofs
    ensures res != Ok ==>
      || (res == InvalidObject && !fp.fs.alive && fp.View() == old(fp.View()) && fp.err == old(fp.err))
      || (res == old(fp.err) && fp.View() == old(fp.View()) && fp.err == old(fp.err))
      || (res == DiskErr == fp.err && fp.fs.faults > old(fp.fs.faults))
      || (res == IntErr == fp.err && DamagedFat(fp.fs))
  {
    hide FatFs.FsInfoTold, FatFs.Valid, FatFs.Fat, FatFs.Logical, Laid, Clean, Sectors, BytesOf, Cursor, OthersKept, NoCluster, DamagedFat,
         FreeCount, FreeOk, Holds;
    if fp.err == Ok {
      FileFacts(fp);
      NothingChanged(fp.fs.g, DevOf(fp.fs), fp.chain);
    }
    res := Validate(fp);
    if res != Ok { return; }
    if fp.err != Ok { return fp.err; }
    var target := if ofs > fp.objsize && !fp.canWrite then fp.objsize else ofs;
    res := SeekTarget(fp, target);
    if res != Ok {
      fp.err := res;
    }
  }

  /**
   However a position was reached, from the current cluster, from the first one or by reading and
   writing up to it, the same file at the same position has the same cursor.
   */
  lemma CursorUnique(g: Geometry, d: Dev, f: FileView, d': Dev, f': FileView)
    requires 0 < g.csize && Laid(g, d, f) && Laid(g, d', f') && Cursor(g, f) && Cursor(g, f')
    requires d'.fat == d.fat && f'.sclust == f.sclust && f'.fptr == f.fptr
    ensures f'.chain == f.chain
    ensures f.fptr > 0 ==> f'.clust == f.clust
    ensures f.fptr % 512 != 0 ==> f'.sect == f.sect
  {
    hide IsChain, Sectors;
    if f.sclust != 0 {
      SameHeadSameChain(d.fat, f.chain, f'.chain);
    }
  }
}
