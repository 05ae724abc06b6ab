/**
 The open file object (ff.h, FIL) and its invariant: how its fields, its cluster chain,
 its sector buffer and the device hang together, and which bytes they stand for.
 */
module FileState {
  import opened Bytes
  import opened Volume
  import opened Window
  import opened FatEntries
  import opened Chains
  import opened FatRuns
  import opened Layout

  // ------------------------------------------------------------- the object

  /** The clusters of a file, whether something of it waits to be written, and the device. */
  datatype Store = Store(chain: seq<nat>, pending: bool, disk: seq<Sector>) {
    /** The clusters are the same, and with nothing waiting before nothing waits now and nothing was written. */
    ghost predicate Untouched(s: Store) {
      s.chain == chain && Quiet(pending, disk, s.pending, s.disk)
    }
  }

  class File {
    const fs: FatFs
    const buf: array<Byte>       // file private data window
    const canRead: bool          // FA_READ
    const canWrite: bool         // FA_WRITE
    const dirSect: Dword         // sector of the directory entry
    const dirOfs: nat            // offset of the entry in that sector
    var modified: bool           // FA_MODIFIED
    var dirty: bool              // FA_DIRTY
    var err: FResult             // abort flag
    var fptr: Dword
    var clust: Dword             // cluster of byte fptr - 1
    var sect: Dword              // sector in buf, 0: none
    var sclust: Dword            // first cluster, 0: none
    var objsize: Dword
    ghost var chain: seq<nat>    // the cluster chain from sclust

    constructor (fs: FatFs, read: bool, write: bool, dirSect: Dword, dirOfs: nat, sclust: Dword, objsize: Dword, ghost chain: seq<nat>)
      requires fs.Valid() && dirOfs + 32 <= 512 && dirSect < |fs.disk|
      requires Laid(fs.g, DevOf(fs), FileView(0, 0, 0, sclust, objsize, false, ZERO_SECTOR, chain, dirSect))
      ensures this.fs == fs && fresh(buf) && canRead == read && canWrite == write && this.chain == chain
      ensures buf.Length == 512 && View() == FileView(0, 0, 0, sclust, objsize, false, ZERO_SECTOR, chain, dirSect)
      ensures err == Ok && Inv()
    {
      this.fs := fs;
      buf := new Byte[512](_ => 0);
      canRead, canWrite := read, write;
      this.dirSect, this.dirOfs := dirSect, dirOfs;
      modified, dirty, err := false, false, Ok;
      fptr, clust, sect := 0, 0, 0;
      this.sclust, this.objsize := sclust, objsize;
      this.chain := chain;
      new;
      hide Laid;
      assert buf[..] == ZERO_SECTOR;
      Placeable(fs, View());
    }

    /** Something waits to be written: the buffer, the window, or the FSInfo sector. */
    ghost predicate Pending()
      reads this`dirty, fs`wflag, fs`fsiFlag
    {
      dirty || fs.Pending()
    }

    ghost function Kept(): Store
      reads this`chain, this`dirty, fs`wflag, fs`fsiFlag, fs`disk
    {
      Store(chain, Pending(), fs.disk)
    }

    ghost function View(): FileView
      requires buf.Length == 512
      reads this, buf
    {
      FileView(fptr, clust, sect, sclust, objsize, dirty, buf[..], chain, dirSect)
    }

    ghost predicate Shaped()
      reads this, buf, fs, fs.win
    {
      && fs.Valid() && buf.Length == 512 && buf != fs.win && dirOfs + 32 <= 512
      && fs.g.fatbase + fs.g.FatArea() <= dirSect < |fs.disk|
      && (dirty ==> fs.g.database <= sect < |fs.disk| && sect != fs.winsect)
    }

    /** The file's bytes are where the fields say; holds even after an aborted read. */
    ghost predicate Placed()
      reads this, buf, fs, fs.win
    {
      Shaped() && Laid(fs.g, DevOf(fs), View())
    }

    /** Between calls: once aborted, a file promises nothing more. */
    ghost predicate Inv()
      reads this, buf, fs, fs.win
    {
      Shaped() && (err == Ok ==> Laid(fs.g, DevOf(fs), View()) && Clean(fs.g, DevOf(fs), View()) && Cursor(fs.g, View()))
    }

    /** The file as a byte string. */
    ghost function Data(): (b: seq<Byte>)
      requires Placed()
      reads this, buf, fs, fs.win
      ensures |b| == objsize
    {
      BytesOf(fs.g, DevOf(fs), View())
    }
  }

  lemma Placeable(fs: FatFs, f: FileView)
    requires fs.Valid() && Laid(fs.g, DevOf(fs), f) && f.fptr == 0 && f.sect == 0 && !f.dirty
    ensures fs.g.fatbase + fs.g.FatArea() <= f.dirSect && 0 < fs.g.csize
    ensures Clean(fs.g, DevOf(fs), f) && Cursor(fs.g, f)
  {
    hide IsChain, Sectors;
  }

  // ------------------------------------------------------------- its value

  datatype FileView = FileView(fptr: nat, clust: nat, sect: nat, sclust: nat, objsize: nat,
                               dirty: bool, buf: Sector, chain: seq<nat>, dirSect: nat)

  /** What a file needs of the volume: the links, the device, where the window is, and what it shows. */
  datatype Dev = Dev(fat: seq<nat>, disk: seq<Sector>, winsect: nat, view: seq<Sector>, log: ErrorLog)

  ghost function DevOf(fs: FatFs): Dev
    requires fs.Valid()
    reads fs`disk, fs`wflag, fs`winsect, fs`faults, fs`lostWrites, fs`torn, fs`fsiFlag, fs`freeClst, fs`lastClst, fs.win
  {
    Dev(fs.Fat(), fs.disk, fs.winsect, fs.Logical(), fs.Log())
  }

  /** The same volume, perhaps after a failed read. */
  ghost predicate SameStore(d: Dev, d': Dev) {
    d'.fat == d.fat && d'.disk == d.disk && d'.winsect == d.winsect && d'.view == d.view && d.log.Onward(d'.log)
  }

  /** Only this data sector may have changed, and that only if it was to be written. */
  ghost predicate OnlySector(d: Dev, d': Dev, write: bool, sect: nat) {
    && d'.fat == d.fat && d'.winsect == d.winsect && d.log.Onward(d'.log)
    && |d'.disk| == |d.disk| && |d'.view| == |d.view|
    && (forall s :: 0 <= s < |d.disk| && !(write && s == sect) ==> d'.disk[s] == d.disk[s])
    && (forall s :: 0 <= s < |d.view| && !(write && s == sect) ==> d'.view[s] == d.view[s])
  }

  ghost predicate GoodVolume(g: Geometry, d: Dev) {
    && 0 < g.csize < 256 && PowerOfTwo(g.csize)
    && 0 < g.fatbase && g.fatbase + g.FatArea() <= g.database
    && 3 <= g.nFatent <= MaxClusters(g.fsType) + 2
    && |d.fat| == g.nFatent
    && g.ClusterBase(g.nFatent) <= |d.disk| <= 0xFFFF_FFFF
  }

  lemma VolumeIsGood(fs: FatFs)
    requires fs.Valid()
    ensures GoodVolume(fs.g, DevOf(fs))
    ensures forall c: nat :: c < fs.g.nFatent ==> fs.Fat()[c] < 0x1000_0000
  {
    DiskBound(fs);
  }

  /** The directory entry lies outside the FATs, the file, and every free cluster. */
  ghost predicate DirPlaced(g: Geometry, fat: seq<nat>, chain: seq<nat>, dirSect: nat)
    requires |fat| == g.nFatent
  {
    && g.fatbase + g.FatArea() <= dirSect
    && dirSect !in Sectors(g, chain)
    && forall c :: 2 <= c < g.nFatent && fat[c] == 0 ==> dirSect !in Run(g, c)
  }

  ghost predicate Laid(g: Geometry, d: Dev, f: FileView) {
    && GoodVolume(g, d)
    && (if f.sclust == 0 then f.chain == [] else f.chain != [] && f.chain[0] == f.sclust && IsChain(d.fat, f.chain))
    && f.objsize <= 512 * |Sectors(g, f.chain)|
    && d.winsect !in Sectors(g, f.chain)
    && (f.dirty ==> f.sect in Sectors(g, f.chain))
    && DirPlaced(g, d.fat, f.chain, f.dirSect)
  }

  /** A file just created, with its entry in the root directory area of a FAT12 or FAT16 volume. */
  lemma CreatedFileIsLaid(fs: FatFs, dirSect: Dword)
    requires fs.Valid() && fs.g.dirbase <= dirSect < fs.g.database && fs.g.fsType != Fat32
    ensures Laid(fs.g, DevOf(fs), FileView(0, 0, 0, 0, 0, false, ZERO_SECTOR, [], dirSect))
  {
    hide PowerOfTwo;
    VolumeIsGood(fs);
    forall c | 2 <= c < fs.g.nFatent ensures dirSect !in Run(fs.g, c) {
      assert fs.g.ClusterBase(c) >= fs.g.database;
    }
  }

  /** A buffer that is not dirty repeats its sector. */
  ghost predicate Clean(g: Geometry, d: Dev, f: FileView) {
    !f.dirty && f.sect != 0 ==>
      && g.database <= f.sect < |d.disk| && f.sect != d.winsect && f.sect != f.dirSect
      && f.buf == d.disk[f.sect]
  }

  /** Where clust and sect stand: behind byte fptr - 1, and on byte fptr inside a sector. */
  ghost predicate Cursor(g: Geometry, f: FileView)
    requires 0 < g.csize
  {
    && f.fptr <= f.objsize
    && (f.fptr > 0 ==> OnCluster(g, f, (f.fptr - 1) / 512))
    && (f.fptr % 512 != 0 ==> OnSector(g, f, f.fptr / 512))
  }

  /** clust holds sector k of the file. */
  ghost predicate OnCluster(g: Geometry, f: FileView, k: nat)
    requires 0 < g.csize
  {
    k / g.csize < |f.chain| && f.clust == f.chain[k / g.csize]
  }

  /** sect is sector k of the file. */
  ghost predicate OnSector(g: Geometry, f: FileView, k: nat) {
    k < |Sectors(g, f.chain)| && f.sect == Sectors(g, f.chain)[k]
  }

  lemma FileSectors(g: Geometry, d: Dev, f: FileView)
    requires Laid(g, d, f)
    ensures Distinct(Sectors(g, f.chain))
    ensures Between(Sectors(g, f.chain), g.database, |d.disk|)
    ensures Between(Sectors(g, f.chain), g.database, g.ClusterBase(g.nFatent))
    ensures |Sectors(g, f.chain)| == |f.chain| * g.csize
  {
    ChainSectors(g, d.fat, f.chain);
    SectorsLength(g, f.chain);
  }

  ghost function BytesOf(g: Geometry, d: Dev, f: FileView): (b: seq<Byte>)
    requires Laid(g, d, f)
    ensures |b| == f.objsize
  {
    FileSectors(g, d, f);
    Content(d.disk, Sectors(g, f.chain), f.dirty, f.sect, f.buf, f.objsize)
  }

  // ------------------------------------------------------------- what keeps it

  /** Moving the window, or changing other entries of the FAT, does not touch the file. */
  lemma WindowMoved(g: Geometry, d: Dev, d': Dev, f: FileView)
    requires Laid(g, d, f) && d'.fat == d.fat && DataKept(g, d.disk, d.winsect, d'.disk, d'.winsect)
    ensures Laid(g, d', f) && BytesOf(g, d', f) == BytesOf(g, d, f)
    ensures Clean(g, d, f) ==> Clean(g, d', f)
  {
    hide Sectors, Run, IsChain, PowerOfTwo;
    FileSectors(g, d, f);
    FileSectors(g, d', f);
    var s := Sectors(g, f.chain);
    forall k | 0 <= k < |s| ensures d'.disk[s[k]] == d.disk[s[k]] {
      assert g.database <= s[k] < |d.disk| && s[k] != d.winsect;
    }
    SameView(d.disk, s, f.dirty, f.sect, f.buf, d'.disk, s, f.dirty, f.sect, f.buf, f.objsize);
  }

  /** The dirty buffer's sector stays clear of the window. */
  lemma BufferClear(g: Geometry, d: Dev, d': Dev, sect: nat)
    requires g.fatbase + g.FatArea() <= g.database <= sect < |d.disk| <= 0xFFFF_FFFF && sect != d.winsect
    requires DataKept(g, d.disk, d.winsect, d'.disk, d'.winsect)
    ensures g.database <= sect < |d'.disk| && sect != d'.winsect
  {
  }

  /** Writing the dirty buffer to its sector, successfully or not, keeps every byte. */
  lemma BufferFlushed(g: Geometry, d: Dev, d': Dev, f: FileView, ok: bool)
    requires Laid(g, d, f) && f.dirty && OnlySector(d, d', true, f.sect)
    requires ok ==> f.sect < |d'.disk| && d'.disk[f.sect] == f.buf
    ensures Laid(g, d', f.(dirty := !ok))
    ensures ok ==> Clean(g, d', f.(dirty := false))
    ensures BytesOf(g, d', f.(dirty := !ok)) == BytesOf(g, d, f)
  {
    hide Sectors, Run, IsChain, PowerOfTwo;
    FileSectors(g, d, f);
    FileSectors(g, d', f.(dirty := !ok));
    var s := Sectors(g, f.chain);
    SameView(d.disk, s, true, f.sect, f.buf, d'.disk, s, !ok, f.sect, f.buf, f.objsize);
  }

  /** A failed read changes nothing for the file. */
  lemma StoreKept(g: Geometry, d: Dev, d': Dev, f: FileView)
    requires SameStore(d, d') && Laid(g, d, f)
    ensures Laid(g, d', f) && BytesOf(g, d', f) == BytesOf(g, d, f) && (Clean(g, d, f) ==> Clean(g, d', f))
  {
    hide Sectors, Run, IsChain, PowerOfTwo;
    FileSectors(g, d, f);
    FileSectors(g, d', f);
  }

  /** A buffer that is not dirty does not count. */
  lemma BufferIgnored(g: Geometry, d: Dev, f: FileView, sect: nat, buf: Sector)
    requires Laid(g, d, f) && !f.dirty
    ensures Laid(g, d, f.(sect := sect, buf := buf))
    ensures BytesOf(g, d, f.(sect := sect, buf := buf)) == BytesOf(g, d, f)
  {
    hide Sectors, Run, IsChain, PowerOfTwo;
    FileSectors(g, d, f);
    FileSectors(g, d, f.(sect := sect, buf := buf));
    var s := Sectors(g, f.chain);
    SameView(d.disk, s, false, f.sect, f.buf, d.disk, s, false, sect, buf, f.objsize);
  }

  /** The bytes do not depend on the cursor. */
  lemma CursorIgnored(g: Geometry, d: Dev, f: FileView, fptr: nat, clust: nat)
    requires Laid(g, d, f)
    ensures Laid(g, d, f.(fptr := fptr, clust := clust))
    ensures BytesOf(g, d, f.(fptr := fptr, clust := clust)) == BytesOf(g, d, f)
    ensures Clean(g, d, f) ==> Clean(g, d, f.(fptr := fptr, clust := clust))
  {
  }

  lemma ByteAt(g: Geometry, d: Dev, f: FileView, i: nat)
    requires Laid(g, d, f) && i < f.objsize
    ensures i / 512 < |Sectors(g, f.chain)| && Sectors(g, f.chain)[i / 512] < |d.disk|
    ensures BytesOf(g, d, f)[i] == SectorView(d.disk, Sectors(g, f.chain)[i / 512], f.dirty, f.sect, f.buf)[i % 512]
  {
    hide Sectors, Run, IsChain, PowerOfTwo;
    FileSectors(g, d, f);
  }

  // ------------------------------------------------------------- clusters and sectors of the file

  /** clst2sect: first sector of a cluster, 0 for an invalid cluster number. */
  function Clst2Sect(g: Geometry, clst: Dword): int
    requires 2 <= g.nFatent
  {
    var c := Sub32(clst, 2);
    if c >= g.nFatent - 2 then 0 else g.database + g.csize * c
  }

  lemma Clst2SectIsBase(g: Geometry, clst: Dword)
    requires 2 <= g.nFatent <= 0x1000_0000 && g.database > 0
    ensures 2 <= clst < g.nFatent ==> Clst2Sect(g, clst) == g.ClusterBase(clst) > 0
    ensures clst < 2 || clst >= g.nFatent ==> Clst2Sect(g, clst) == 0
  {
    if clst >= 2 {
      ClusterBaseProduct(g, clst);
      assert Sub32(clst, 2) == clst - 2;
    } else {
      assert Sub32(clst, 2) == clst + 0xFFFF_FFFE;
    }
  }

  /** Sector k + j of the file follows sector k by j, inside one cluster. */
  lemma ContiguousSectors(g: Geometry, chain: seq<nat>, k: nat, j: nat)
    requires 0 < g.csize && k < |Sectors(g, chain)| && k % g.csize + j < g.csize
    ensures k + j < |Sectors(g, chain)| && Sectors(g, chain)[k + j] == Sectors(g, chain)[k] + j
  {
    hide Sectors;
    SectorsLength(g, chain);
    SectorAt(g, chain, k);
    SameBlock(k, j, g.csize);
    BlockBound(k + j, g.csize, |chain|);
    SectorAt(g, chain, k + j);
  }

  /** The sector that clust and the offset in the cluster address is the file's sector k. */
  lemma SectorOfCluster(g: Geometry, d: Dev, f: FileView, k: nat)
    requires Laid(g, d, f) && OnCluster(g, f, k)
    ensures k < |Sectors(g, f.chain)|
    ensures 2 <= f.clust < g.nFatent && f.clust < 0x1000_0000
    ensures Clst2Sect(g, f.clust) > 0
    ensures Sectors(g, f.chain)[k] == Clst2Sect(g, f.clust) + k % g.csize
    ensures g.database <= Sectors(g, f.chain)[k] < |d.disk| <= 0xFFFF_FFFF
    ensures Sectors(g, f.chain)[k] != d.winsect && Sectors(g, f.chain)[k] != f.dirSect
    ensures Sectors(g, f.chain)[k] > 0 && k % g.csize < g.csize
  {
    hide Sectors, IsChain, PowerOfTwo, GoodVolume;
    assert GoodVolume(g, d);
    GoodBounds(g, d);
    SectorsLength(g, f.chain);
    BlockBound(k, g.csize, |f.chain|);
    SectorAt(g, f.chain, k);
    ChainAllocated(d.fat, f.chain);
    assert f.clust in f.chain;
    Clst2SectIsBase(g, f.clust);
    FileSectors(g, d, f);
  }

  lemma GoodBounds(g: Geometry, d: Dev)
    requires GoodVolume(g, d)
    ensures 2 < g.nFatent < 0x1000_0000 && 0 < g.database && 0 < g.csize < 256 && |d.fat| == g.nFatent
    ensures |d.disk| <= 0xFFFF_FFFF
  {
  }

  /** What the cursor says about the sector of the next byte. */
  lemma CursorParts(g: Geometry, f: FileView)
    requires 0 < g.csize && Cursor(g, f)
    ensures f.fptr <= f.objsize
    ensures f.fptr % 512 != 0 ==> OnCluster(g, f, f.fptr / 512) && OnSector(g, f, f.fptr / 512)
    ensures f.fptr / 512 % g.csize != 0 ==> OnCluster(g, f, f.fptr / 512)
  {
    hide Sectors;
    var k := f.fptr / 512;
    if f.fptr % 512 != 0 {
      assert (f.fptr - 1) / 512 == k;
    } else if k % g.csize != 0 {
      assert (f.fptr - 1) / 512 == k - 1;
      SameBlockBefore(k, g.csize);
    }
  }

  /** Where the cursor stands after n more bytes inside the same cluster. */
  lemma CursorAdvanced(g: Geometry, f: FileView, f': FileView, n: nat)
    requires 0 < g.csize && 0 < n
    requires f'.fptr == f.fptr + n <= f'.objsize && f'.chain == f.chain && f'.clust == f.clust && OnCluster(g, f, f.fptr / 512)
    requires f.fptr % 512 == 0 && n % 512 == 0 ==> f.fptr / 512 % g.csize + n / 512 <= g.csize
    requires !(f.fptr % 512 == 0 && n % 512 == 0) ==>
               f.fptr % 512 + n <= 512 && OnSector(g, f', f.fptr / 512)
    ensures Cursor(g, f')
  {
    hide Sectors;
    var k := f.fptr / 512;
    if f.fptr % 512 == 0 && n % 512 == 0 {
      var j := n / 512 - 1;
      assert (f'.fptr - 1) / 512 == k + j;
      SameBlock(k, j, g.csize);
    } else {
      assert (f'.fptr - 1) / 512 == k;
    }
  }

  /** sect is the sector of the next byte, number csect of the cluster that clust is on. */
  ghost predicate SectorReady(g: Geometry, d: Dev, f: FileView, sect: nat, csect: nat) {
    && 0 < g.csize && f.fptr % 512 == 0 && csect == f.fptr / 512 % g.csize && OnCluster(g, f, f.fptr / 512)
    && f.fptr / 512 < |Sectors(g, f.chain)| && sect == Sectors(g, f.chain)[f.fptr / 512]
    && g.database <= sect < |d.disk| && 0 < sect && sect != d.winsect && sect != f.dirSect
  }

  lemma ReadySector(g: Geometry, d: Dev, f: FileView, sect: nat, csect: nat)
    requires SectorReady(g, d, f, sect, csect)
    ensures f.fptr % 512 == 0 && f.fptr / 512 < |Sectors(g, f.chain)| && sect == Sectors(g, f.chain)[f.fptr / 512]
    ensures g.database <= sect < |d.disk| && 0 < sect && sect != d.winsect && sect != f.dirSect && csect < g.csize
    ensures OnCluster(g, f, f.fptr / 512)
  {
    hide Sectors, OnCluster;
  }

  lemma ReadyKept(g: Geometry, d: Dev, d': Dev, f: FileView, sect: nat, csect: nat)
    requires SectorReady(g, d, f, sect, csect) && SameStore(d, d')
    ensures SectorReady(g, d', f, sect, csect)
  {
    hide Sectors, OnCluster;
  }

  lemma OnSectorKept(g: Geometry, f: FileView, f': FileView, k: nat)
    requires OnSector(g, f, k) && f'.chain == f.chain && f'.sect == f.sect
    ensures OnSector(g, f', k)
  {
  }

  lemma OnReadySector(g: Geometry, d: Dev, f: FileView, f': FileView, sect: nat, csect: nat)
    requires SectorReady(g, d, f, sect, csect) && f'.chain == f.chain && f'.clust == f.clust && f'.fptr == f.fptr && f'.sect == sect
    ensures OnCluster(g, f', f'.fptr / 512) && OnSector(g, f', f'.fptr / 512)
  {
  }

  /** Where the cursor stands after cc whole sectors of that cluster. */
  lemma SectorsAdvanced(g: Geometry, d: Dev, f: FileView, f': FileView, sect: nat, csect: nat, cc: nat)
    requires SectorReady(g, d, f, sect, csect) && 0 < cc && csect + cc <= g.csize
    requires f'.fptr == f.fptr + 512 * cc <= f'.objsize && f'.chain == f.chain && f'.clust == f.clust
    ensures 0 < g.csize && Cursor(g, f')
  {
    hide Sectors, OnCluster, Cursor;
    CursorAdvanced(g, f, f', 512 * cc);
  }

  // ------------------------------------------------------------- the buffer's sector

  /** The buffered sector, if any, is one of the chain's. */
  ghost predicate Holds(g: Geometry, chain: seq<nat>, sect: nat) {
    sect == 0 || sect in Sectors(g, chain)
  }

  lemma HoldsSector(g: Geometry, chain: seq<nat>, k: nat)
    requires k < |Sectors(g, chain)|
    ensures Holds(g, chain, Sectors(g, chain)[k])
  {
    hide Sectors;
  }

  lemma HoldsMore(g: Geometry, chain: seq<nat>, chain': seq<nat>, sect: nat)
    requires chain <= chain'
    ensures Holds(g, chain, sect) ==> Holds(g, chain', sect)
  {
    hide Sectors;
    SectorsPrefix(g, chain', |chain|);
    assert chain'[..|chain|] == chain;
    assert forall s :: s in Sectors(g, chain) ==> s in Sectors(g, chain');
  }

  // ------------------------------------------------------------- other files

  /** The sectors of cluster c other than x show what they showed, and all but one waiting in the window hold it. */
  ghost predicate RunKeptBut(g: Geometry, c: nat, d: Dev, d': Dev, x: int) {
    forall s :: g.ClusterBase(c) <= s < g.ClusterBase(c) + g.csize && s != x ==>
      && (s < |d.disk| && s < |d'.disk| && s != d.winsect ==> d'.disk[s] == d.disk[s])
      && (s < |d.view| && s < |d'.view| ==> d'.view[s] == d.view[s])
  }

  /** The sectors behind the FATs that belong to no cluster, the static root directory above all, show the same. */
  ghost predicate RestKept(g: Geometry, d: Dev, d': Dev, x: int) {
    && |d'.view| == |d.view|
    && forall s :: g.fatbase + g.FatArea() <= s < |d.view| && !(g.database <= s < g.ClusterBase(g.nFatent)) && s != x ==>
         d'.view[s] == d.view[s]
  }

  ghost predicate AwayFromData(g: Geometry, winsect: nat) {
    winsect < g.fatbase + g.FatArea() || winsect == 0xFFFF_FFFF
  }

  /**
   A change made for one file: its chain takes only its own or free clusters, and every
   allocated cluster outside it keeps its link and its sectors. Unless the call has left
   a FAT12 entry half stored, the table as a whole stays sound.
   */
  ghost predicate OthersKept(g: Geometry, d: Dev, chain: seq<nat>, d': Dev, chain': seq<nat>) {
    OthersBut(g, d, chain, d', chain', -1)
  }

  /** The same for calls that may also rewrite the directory sector x and leave the window on it. */
  ghost predicate OthersBut(g: Geometry, d: Dev, chain: seq<nat>, d': Dev, chain': seq<nat>, x: int) {
    && |d'.fat| == |d.fat| && |d'.disk| == |d.disk| && d.log.Onward(d'.log)
    && (d'.winsect == d.winsect || d'.winsect == x || AwayFromData(g, d'.winsect))
    && (chain == [] && chain' != [] ==> d'.winsect == x || AwayFromData(g, d'.winsect))
    && (forall c :: c in chain' ==> c in chain || (2 <= c < |d.fat| && d.fat[c] == 0))
    && (forall c :: 2 <= c < |d.fat| && d.fat[c] != 0 && c !in chain ==> d'.fat[c] == d.fat[c] && RunKeptBut(g, c, d, d', x))
    && RestKept(g, d, d', x)
    && (d'.log.torn == d.log.torn ==> TableKept(d.fat, chain, d'.fat, chain'))
  }

  lemma OthersOnward(g: Geometry, d: Dev, chain: seq<nat>, d': Dev, chain': seq<nat>, d'': Dev, chain'': seq<nat>)
    requires OthersKept(g, d, chain, d', chain') && OthersKept(g, d', chain', d'', chain'')
    requires GoodVolume(g, d)
    ensures OthersKept(g, d, chain, d'', chain'')
  {
    hide OthersBut;
    ButOnward(g, d, chain, d', chain', d'', chain'', -1);
  }

  lemma ButOnward(g: Geometry, d: Dev, chain: seq<nat>, d': Dev, chain': seq<nat>, d'': Dev, chain'': seq<nat>, x: int)
    requires OthersBut(g, d, chain, d', chain', x) && OthersBut(g, d', chain', d'', chain'', x)
    requires GoodVolume(g, d)
    ensures OthersBut(g, d, chain, d'', chain'', x)
  {
    hide TableKept, PowerOfTwo;
    if d''.log.torn == d.log.torn { TableOnward(d.fat, chain, d'.fat, chain', d''.fat, chain''); }
    forall c | 2 <= c < |d.fat| && d.fat[c] != 0 && c !in chain
      ensures d''.fat[c] == d.fat[c] && RunKeptBut(g, c, d, d'', x)
    {
      assert c !in chain';
      assert RunKeptBut(g, c, d, d', x) && RunKeptBut(g, c, d', d'', x);
      RunOnward(g, c, d, d', d'', x);
    }
  }

  lemma RunOnward(g: Geometry, c: nat, d: Dev, d': Dev, d'': Dev, x: int)
    requires RunKeptBut(g, c, d, d', x) && RunKeptBut(g, c, d', d'', x) && |d.disk| == |d'.disk| && |d.view| == |d'.view|
    requires d'.winsect == d.winsect || d'.winsect == x || AwayFromData(g, d'.winsect)
    requires g.fatbase + g.FatArea() <= g.database && |d.disk| <= 0xFFFF_FFFF
    ensures RunKeptBut(g, c, d, d'', x)
  {
  }

  /** Writing only sectors of the chain itself. */
  lemma OwnSectorsOnly(g: Geometry, d: Dev, chain: seq<nat>, d': Dev)
    requires d'.fat == d.fat && d'.winsect == d.winsect && |d'.disk| == |d.disk| && |d'.view| == |d.view| && d.log.Onward(d'.log)
    requires forall i :: 0 <= i < |chain| ==> 2 <= chain[i] < g.nFatent
    requires forall s :: 0 <= s < |d.disk| && s !in Sectors(g, chain) ==> d'.disk[s] == d.disk[s]
    requires forall s :: 0 <= s < |d.view| && s !in Sectors(g, chain) ==> d'.view[s] == d.view[s]
    ensures OthersKept(g, d, chain, d', chain)
  {
    hide Sectors;
    forall c | 2 <= c < |d.fat| && d.fat[c] != 0 && c !in chain
      ensures RunKeptBut(g, c, d, d', -1)
    {
      forall s | g.ClusterBase(c) <= s < g.ClusterBase(c) + g.csize ensures s !in Sectors(g, chain) {
        OutsideOwn(g, chain, c, s);
      }
    }
    forall s | 0 <= s && !(g.database <= s < g.ClusterBase(g.nFatent)) ensures s !in Sectors(g, chain) {
      NotInData(g, chain, s);
    }
  }

  lemma OutsideOwn(g: Geometry, chain: seq<nat>, c: nat, s: nat)
    requires 2 <= c && c !in chain && g.ClusterBase(c) <= s < g.ClusterBase(c) + g.csize
    requires forall i :: 0 <= i < |chain| ==> 2 <= chain[i]
    ensures s !in Sectors(g, chain)
  {
    hide Sectors;
    forall i | 0 <= i < |chain| ensures s !in Run(g, chain[i]) {
      RunsApart(g, c, chain[i], s);
    }
    NotAmongSectors(g, chain, s);
  }

  lemma NotInData(g: Geometry, chain: seq<nat>, s: nat)
    requires forall i :: 0 <= i < |chain| ==> 2 <= chain[i] < g.nFatent
    requires !(g.database <= s < g.ClusterBase(g.nFatent))
    ensures s !in Sectors(g, chain)
  {
    hide Sectors;
    forall i | 0 <= i < |chain| ensures s !in Run(g, chain[i]) {
      ClustersAscend(g, chain[i], g.nFatent);
    }
    NotAmongSectors(g, chain, s);
  }

  lemma RunsApart(g: Geometry, c: nat, e: nat, s: nat)
    requires 2 <= c && 2 <= e && c != e && g.ClusterBase(c) <= s < g.ClusterBase(c) + g.csize
    ensures s !in Run(g, e)
  {
    if c < e {
      ClustersAscend(g, c, e);
    } else {
      ClustersAscend(g, e, c);
    }
  }

  lemma OwnClusters(g: Geometry, d: Dev, f: FileView)
    requires Laid(g, d, f)
    ensures forall i :: 0 <= i < |f.chain| ==> 2 <= f.chain[i] < g.nFatent
  {
    hide Sectors, PowerOfTwo;
    if f.chain != [] {
      ChainAllocated(d.fat, f.chain);
      forall i | 0 <= i < |f.chain| ensures 2 <= f.chain[i] < g.nFatent {
        assert f.chain[i] in f.chain;
      }
    }
  }

  /** Writing the buffer back, or failing to, touches no other file. */
  lemma FlushedOthers(g: Geometry, d: Dev, f: FileView, d': Dev)
    requires Laid(g, d, f) && OnlySector(d, d', f.dirty, f.sect)
    ensures OthersKept(g, d, f.chain, d', f.chain)
  {
    hide Sectors, PowerOfTwo;
    OwnClusters(g, d, f);
    OwnSectorsOnly(g, d, f.chain, d');
  }

  lemma NothingChanged(g: Geometry, d: Dev, chain: seq<nat>)
    ensures OthersKept(g, d, chain, d, chain)
  {
  }

  lemma StoreOthers(g: Geometry, d: Dev, chain: seq<nat>, d': Dev)
    requires SameStore(d, d')
    ensures OthersKept(g, d, chain, d', chain)
  {
    hide TableKept;
    SameTable(d.fat, chain);
  }

  /** A FAT operation for this file, seen from the others. */
  lemma FatChangedForChain(g: Geometry, d: Dev, chain: seq<nat>, d': Dev, chain': seq<nat>)
    requires |d'.fat| == |d.fat| == g.nFatent && DataKept(g, d.disk, d.winsect, d'.disk, d'.winsect)
    requires OutsideFatSame(g, d.view, d'.view) && d.log.Onward(d'.log) && (chain == [] && chain' != [] ==> g.InFat1(d'.winsect))
    requires g.fatbase + g.FatArea() <= g.database
    requires forall c :: c in chain' ==> c in chain || (2 <= c < |d.fat| && d.fat[c] == 0)
    requires forall c :: 2 <= c < |d.fat| && d.fat[c] != 0 && c !in chain ==> d'.fat[c] == d.fat[c]
    requires d'.log.torn == d.log.torn ==> TableKept(d.fat, chain, d'.fat, chain')
    ensures OthersKept(g, d, chain, d', chain')
  {
    hide TableKept;
  }

  /** Moving the window over the FAT, which may flush it. */
  lemma WindowOthers(g: Geometry, d: Dev, d': Dev, f: FileView)
    requires Laid(g, d', f) && d'.fat == d.fat && DataKept(g, d.disk, d.winsect, d'.disk, d'.winsect)
    requires d'.view == d.view && d.log.Onward(d'.log)
    ensures OthersKept(g, d, f.chain, d', f.chain)
  {
    hide Sectors, IsChain, PowerOfTwo, TableKept;
    SameTable(d.fat, f.chain);
    FatChangedForChain(g, d, f.chain, d', f.chain);
  }

  lemma KeptIsBut(g: Geometry, d: Dev, chain: seq<nat>, d': Dev, chain': seq<nat>, x: nat)
    requires OthersKept(g, d, chain, d', chain')
    ensures OthersBut(g, d, chain, d', chain', x)
  {
    hide TableKept;
    forall c | 2 <= c < |d.fat| && d.fat[c] != 0 && c !in chain ensures RunKeptBut(g, c, d, d', x) {
      assert RunKeptBut(g, c, d, d', -1);
    }
  }

  lemma {:induction false} ClusterAround(g: Geometry, s: nat, c: nat) returns (e: nat)
    requires g.database <= s < g.ClusterBase(c)
    ensures 2 <= e < c && g.ClusterBase(e) <= s < g.ClusterBase(e) + g.csize
    decreases c
  {
    if g.ClusterBase(c - 1) <= s {
      e := c - 1;
    } else {
      e := ClusterAround(g, s, c - 1);
    }
  }

  /** A sector behind the FATs, outside the file and every free cluster, a directory's above all, shows what it showed. */
  lemma SectorKept(g: Geometry, d: Dev, chain: seq<nat>, d': Dev, chain': seq<nat>, x: int, s: nat)
    requires OthersBut(g, d, chain, d', chain', x) && |d.fat| == g.nFatent && DirPlaced(g, d.fat, chain, s) && s < |d.view| && s != x
    ensures |d'.view| == |d.view| && d'.view[s] == d.view[s]
  {
    hide Sectors, TableKept;
    if g.database <= s < g.ClusterBase(g.nFatent) {
      var c := ClusterAround(g, s, g.nFatent);
      assert Run(g, c)[s - g.ClusterBase(c)] == s;
      if c in chain {
        var q :| 0 <= q < |chain| && chain[q] == c;
        AmongSectors(g, chain, q, s);
      }
      assert RunKeptBut(g, c, d, d', x);
    }
  }

  /**
   What that means for another open file, dirty buffer and all: it is laid out as before, holds the same
   bytes, and stays apart. Its buffer must not linger on a sector that is no longer its own.
   */
  lemma OtherHandleKept(g: Geometry, d: Dev, chain: seq<nat>, d': Dev, chain': seq<nat>, x: nat, f: FileView)
    requires GoodVolume(g, d') && OthersBut(g, d, chain, d', chain', x)
    requires Laid(g, d, f) && Clean(g, d, f) && Holds(g, f.chain, f.sect)
    requires Disjoint(f.chain, chain) && x !in Sectors(g, f.chain) && f.dirSect !in Sectors(g, chain)
    requires forall i :: 0 <= i < |chain| ==> 2 <= chain[i]
    ensures Laid(g, d', f) && Clean(g, d', f) && BytesOf(g, d', f) == BytesOf(g, d, f)
    ensures |d'.disk| == |d.disk| && (f.dirty ==> f.sect != d'.winsect)
    ensures Disjoint(f.chain, chain') && f.dirSect !in Sectors(g, chain')
  {
    hide Sectors, PowerOfTwo, Run;
    var s := Sectors(g, f.chain);
    FileSectors(g, d, f);
    if f.chain != [] { ChainAllocated(d.fat, f.chain); }
    forall k | 0 <= k < |s| ensures d'.disk[s[k]] == d.disk[s[k]] && s[k] != d'.winsect {
      var i, a := Locate(g, f.chain, k);
      assert f.chain[i] in f.chain;
      assert RunKeptBut(g, f.chain[i], d, d', x);
    }
    forall i | 0 <= i < |f.chain| ensures d'.fat[f.chain[i]] == d.fat[f.chain[i]] {
      assert f.chain[i] in f.chain;
    }
    forall c | 2 <= c < g.nFatent && d'.fat[c] == 0 ensures f.dirSect !in Run(g, c) {
      if c in chain {
        var q :| 0 <= q < |chain| && chain[q] == c;
        if f.dirSect in Run(g, c) { AmongSectors(g, chain, q, f.dirSect); }
      }
    }
    forall i | 0 <= i < |chain'| ensures f.dirSect !in Run(g, chain'[i]) {
      assert chain'[i] in chain';
      if chain'[i] in chain {
        var q :| 0 <= q < |chain| && chain[q] == chain'[i];
        if f.dirSect in Run(g, chain'[i]) { AmongSectors(g, chain, q, f.dirSect); }
      }
    }
    NotAmongSectors(g, chain', f.dirSect);
    SameView(d.disk, s, f.dirty, f.sect, f.buf, d'.disk, s, f.dirty, f.sect, f.buf, f.objsize);
  }
}
