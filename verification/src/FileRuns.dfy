/**
 Whole sessions on open files: any sequence of f_read, f_write, f_lseek, f_truncate and f_sync
 refines a plain byte string with a position, and two handles do not disturb each other.
 */
module FileRuns {
  import opened Bytes
  import opened Volume
  import opened Window
  import opened Chains
  import opened Allocation
  import opened FatRuns
  import opened Layout
  import opened FileState
  import opened FileRead
  import opened FileWrite
  import opened FileSeek
  import opened FileTruncate
  import opened FileSync

  datatype Request =
    | ReadBytes(n: Dword)
    | WriteBytes(bytes: seq<Byte>)
    | SeekTo(ofs: Dword)
    | TruncateHere
    | Flush(now: Dword)

  /** The abstract file, and how many clusters are free, really and by the cached count. */
  datatype ByteFile = ByteFile(data: seq<Byte>, pos: nat, free: nat, told: nat)

  ghost function Abstract(fp: File): ByteFile
    requires fp.Placed()
    reads fp, fp.buf, fp.fs, fp.fs.win
  {
    ByteFile(fp.Data(), fp.fptr, FreeCount(fp.fs.Fat()), fp.fs.freeClst)
  }

  /** No cluster is to be had: none is free, or the cached count says so. */
  predicate Full(a: ByteFile) {
    a.free == 0 || a.told == 0
  }

  lemma NoClusterIsFull(fp: File)
    requires fp.Placed() && NoCluster(fp.fs)
    ensures Full(Abstract(fp))
  {
    hide FatFs.Fat, Laid;
    FreeBelowBound(fp.fs.Fat(), |fp.fs.Fat()|);
  }

  /** The cached count, when it claims to be known, is right. */
  predicate Accurate(a: ByteFile, nFatent: nat) {
    a.told + 2 <= nFatent ==> a.told == a.free
  }

  /** One request served on the byte string a, giving a' and the bytes out. */
  ghost predicate Serves(a: ByteFile, canWrite: bool, r: Request, a': ByteFile, out: seq<Byte>) {
    && a.pos <= |a.data| && a'.pos <= |a'.data|
    && match r
       case ReadBytes(n) => a' == a.(pos := Min(a.pos + n, |a.data|)) && out == a.data[a.pos..a'.pos]
       case WriteBytes(bytes) =>
         && out == [] && a.pos <= a'.pos <= a.pos + |bytes| && a'.data == Splice(a.data, a.pos, bytes[..a'.pos - a.pos])
         // fewer bytes only at the 4 GiB limit or for want of a cluster
         && (a'.pos < a.pos + |bytes| ==> a'.pos == 0xFFFF_FFFF || Full(a'))
       case SeekTo(ofs) =>
         && out == [] && Extends(a.data, a'.data) && |a'.data| == Max(a'.pos, |a.data|)
         && (ofs <= |a.data| || !canWrite ==> a'.pos == Min(ofs, |a.data|))
         // beyond the end the file is stretched, at worst as far as there are clusters
         && (canWrite ==> a'.pos <= ofs && (a'.pos < ofs ==> |a.data| <= a'.pos && Full(a')))
       case TruncateHere => out == [] && a'.data == a.data[..a.pos] && a'.pos == a.pos
       case Flush(now) => out == [] && a' == a
  }

  /** Why a request can fail: an unmounted volume, a device error, a damaged table, or the access mode. */
  ghost predicate Excused(fp: File, r: Request, res: FResult, before: nat)
    requires fp.fs.Valid()
    reads fp, fp.fs, fp.fs.win
  {
    || (res == InvalidObject && !fp.fs.alive)
    || (res == DiskErr && fp.fs.faults > before)
    || (res == IntErr && (r.WriteBytes? || r.SeekTo?) && DamagedFat(fp.fs))
    || (res == Denied && if r.ReadBytes? then !fp.canRead else (r.WriteBytes? || r.TruncateHere?) && !fp.canWrite)
  }

  method ServeRead(fp: File, n: Dword) returns (res: FResult, out: seq<Byte>)
    requires fp.Inv() && fp.err == Ok
    modifies fp`fptr, fp`clust, fp`sect, fp`dirty, fp`err, fp.buf,
             fp.fs`alive, fp.fs`disk, fp.fs`wflag, fp.fs`faults, fp.fs`lostWrites, fp.fs`winsect, fp.fs.win
    ensures fp.Inv() && old(fp.Placed()) && old(fp.fs.Log()).Onward(fp.fs.Log()) && fp.fs.Fat() == old(fp.fs.Fat())
    ensures OthersKept(fp.fs.g, old(DevOf(fp.fs)), fp.chain, DevOf(fp.fs), fp.chain)
    ensures res == Ok ==> fp.err == Ok && fp.Placed() && Serves(old(Abstract(fp)), fp.canWrite, ReadBytes(n), Abstract(fp), out)
    ensures res == Ok && old(Accounted(fp)) ==> Accounted(fp)
    ensures res == Ok && old(Holds(fp.fs.g, fp.chain, fp.sect)) ==> Holds(fp.fs.g, fp.chain, fp.sect)
    ensures res != Ok ==> Excused(fp, ReadBytes(n), res, old(fp.fs.faults))
  {
    hide OnDevice, Listed, FatFs.Valid, FatFs.Fat, FatFs.Logical, Laid, Clean, Cursor, BytesOf, FreeCount, OthersKept, Holds;
    FileFacts(fp);
    OnDeviceIff(fp);
    HeadOf(fp);
    var buff := new Byte[n];
    var br;
    res, br := Read(fp, buff, n);
    out := buff[..br];
    if res == Ok {
      FileFacts(fp);
      OnDeviceIff(fp);
      HeadOf(fp);
    }
  }

  method ServeWrite(fp: File, bytes: seq<Byte>) returns (res: FResult)
    requires fp.Inv() && fp.err == Ok && |bytes| < 0x1_0000_0000
    modifies fp`clust, fp`chain, fp`sclust, fp`dirty, fp`sect, fp`fptr, fp`objsize, fp`err, fp`modified, fp.buf, fp.fs`alive, fp.fs`disk,
             fp.fs`wflag, fp.fs`faults, fp.fs`lostWrites, fp.fs`winsect, fp.fs.win, fp.fs`freeClst, fp.fs`torn, fp.fs`fsiFlag,
             fp.fs`lastClst
    ensures fp.Inv() && old(fp.Placed()) && old(fp.fs.Log()).Onward(fp.fs.Log())
    ensures OthersKept(fp.fs.g, old(DevOf(fp.fs)), old(fp.chain), DevOf(fp.fs), fp.chain)
    ensures res == Ok && old(FreeOk(fp.fs)) ==> FreeOk(fp.fs)
    ensures res == Ok ==> fp.err == Ok && fp.Placed() && Serves(old(Abstract(fp)), fp.canWrite, WriteBytes(bytes), Abstract(fp), [])
    ensures res == Ok && old(Accounted(fp)) ==> Accounted(fp)
    ensures res == Ok && old(Holds(fp.fs.g, fp.chain, fp.sect)) ==> Holds(fp.fs.g, fp.chain, fp.sect)
    ensures res != Ok ==> Excused(fp, WriteBytes(bytes), res, old(fp.fs.faults))
  {
    hide OnDevice, Listed, FatFs.Valid, FatFs.Fat, FatFs.Logical, Laid, Clean, Cursor, BytesOf, OthersKept, NoCluster, DamagedFat, Splice,
         File.Data, FreeCount, FreeOk, Holds;
    FileFacts(fp);
    var buff := new Byte[|bytes|](i requires 0 <= i < |bytes| => bytes[i]);
    assert buff[..] == bytes;
    var bw;
    res, bw := Write(fp, buff, |bytes|);
    assert buff[..bw] == bytes[..bw];
    if res == Ok {
      FileFacts(fp);
      if NoCluster(fp.fs) { NoClusterIsFull(fp); }
    }
  }

  method ServeSeek(fp: File, ofs: Dword) returns (res: FResult)
    requires fp.Inv() && fp.err == Ok
    modifies fp`clust, fp`chain, fp`sclust, fp`dirty, fp`sect, fp`fptr, fp`objsize, fp`modified, fp`err, fp.buf, fp.fs`alive, fp.fs`disk,
             fp.fs`wflag, fp.fs`faults, fp.fs`lostWrites, fp.fs`winsect, fp.fs.win, fp.fs`freeClst, fp.fs`torn, fp.fs`fsiFlag,
             fp.fs`lastClst
    ensures fp.Inv() && old(fp.Placed()) && old(fp.fs.Log()).Onward(fp.fs.Log())
    ensures OthersKept(fp.fs.g, old(DevOf(fp.fs)), old(fp.chain), DevOf(fp.fs), fp.chain)
    ensures res == Ok && old(FreeOk(fp.fs)) ==> FreeOk(fp.fs)
    ensures res == Ok ==> fp.err == Ok && fp.Placed() && Serves(old(Abstract(fp)), fp.canWrite, SeekTo(ofs), Abstract(fp), [])
    ensures res == Ok && old(Accounted(fp)) ==> Accounted(fp)
    ensures res == Ok && old(Holds(fp.fs.g, fp.chain, fp.sect)) ==> Holds(fp.fs.g, fp.chain, fp.sect)
    ensures res != Ok ==> Excused(fp, SeekTo(ofs), res, old(fp.fs.faults))
  {
    hide OnDevice, Listed, FatFs.Valid, FatFs.Fat, FatFs.Logical, Laid, Clean, Cursor, BytesOf, OthersKept, NoCluster, DamagedFat,
         FreeCount, FreeOk, Holds;
    FileFacts(fp);
    OnDeviceIff(fp);
    HeadOf(fp);
    res := Lseek(fp, ofs);
    if res == Ok {
      FileFacts(fp);
      OnDeviceIff(fp);
      HeadOf(fp);
      if NoCluster(fp.fs) { NoClusterIsFull(fp); }
    }
  }

  /** Whether the buffered sector, if it was one of the file's, is so after the call: a truncation may free it. */
  ghost predicate KeepsBuffer(g: Geometry, f: FileView, r: Request) {
    r.TruncateHere? && f.fptr < f.objsize ==>
      0 < g.csize && ClustersFor(g, f.fptr) <= |f.chain| && Holds(g, f.chain[..ClustersFor(g, f.fptr)], f.sect)
  }

  method Serve(fp: File, r: Request) returns (res: FResult, out: seq<Byte>)
    requires fp.Inv() && fp.err == Ok && (r.WriteBytes? ==> |r.bytes| < 0x1_0000_0000)
    modifies fp, fp.buf, fp.fs, fp.fs.win
    ensures fp.Inv() && old(fp.Placed()) && old(fp.fs.Log()).Onward(fp.fs.Log())
    ensures OthersBut(fp.fs.g, old(DevOf(fp.fs)), old(fp.chain), DevOf(fp.fs), fp.chain, fp.dirSect)
    ensures res == Ok && old(FreeOk(fp.fs)) ==> FreeOk(fp.fs)
    ensures res == Ok ==> fp.err == Ok && fp.Placed() && Serves(old(Abstract(fp)), fp.canWrite, r, Abstract(fp), out)
    ensures res == Ok && old(Accounted(fp)) ==> Accounted(fp) && (r.Flush? ==> OnDevice(fp))
    ensures res == Ok && old(Holds(fp.fs.g, fp.chain, fp.sect)) ==>
              (Holds(fp.fs.g, fp.chain, fp.sect) <==> old(KeepsBuffer(fp.fs.g, fp.View(), r)))
    ensures res != Ok ==> Excused(fp, r, res, old(fp.fs.faults))
  {
    hide FatFs.FsInfoTold, FatFs.Valid, FatFs.Fat, FatFs.Logical, Laid, Clean, Cursor, BytesOf, OthersKept, OthersBut, NoCluster,
         DamagedFat, Durable, OnDevice, Splice, FreeCount, Holds, ClustersFor;
    FileFacts(fp);
    OnDeviceIff(fp);
    ghost var g, d, chain := fp.fs.g, DevOf(fp.fs), fp.chain;
    out := [];
    match r {
      case ReadBytes(n) => res, out := ServeRead(fp, n);
      case WriteBytes(bytes) => res := ServeWrite(fp, bytes);
      case SeekTo(ofs) => res := ServeSeek(fp, ofs);
      case TruncateHere => res := Truncate(fp);
      case Flush(now) => res := Sync(fp, now);
    }
    if r.TruncateHere? && res == Ok && !fp.modified { OnDeviceIff(fp); }
    if !r.Flush? { KeptIsBut(g, d, chain, DevOf(fp.fs), fp.chain, fp.dirSect); }
  }

  // ------------------------------------------------------------- sessions

  /** A run of the byte string machine that answers the first requests. */
  ghost predicate IsSession(states: seq<ByteFile>, canWrite: bool, reqs: seq<Request>, outs: seq<seq<Byte>>) {
    && |states| == |outs| + 1 && |outs| <= |reqs|
    && forall i :: 0 <= i < |outs| ==> Serves(states[i], canWrite, reqs[i], states[i + 1], outs[i])
  }

  /** Requests in any order, up to the first that reports an error. */
  method Session(fp: File, reqs: seq<Request>) returns (res: FResult, outs: seq<seq<Byte>>, ghost states: seq<ByteFile>)
    requires fp.Inv() && fp.err == Ok && forall r :: r in reqs && r.WriteBytes? ==> |r.bytes| < 0x1_0000_0000
    modifies fp, fp.buf, fp.fs, fp.fs.win
    ensures fp.Inv() && old(fp.Placed()) && old(fp.fs.Log()).Onward(fp.fs.Log())
    ensures IsSession(states, fp.canWrite, reqs, outs) && states[0] == old(Abstract(fp))
    ensures res == Ok ==> |outs| == |reqs| && fp.Placed() && states[|outs|] == Abstract(fp)
    ensures res != Ok ==> |outs| < |reqs| && Excused(fp, reqs[|outs|], res, old(fp.fs.faults))
    // an accurate free count stays accurate, and other files keep their chains and sectors
    ensures old(FreeOk(fp.fs)) ==> AllAccurate(states, fp.fs.g.nFatent)
    ensures OthersBut(fp.fs.g, old(DevOf(fp.fs)), old(fp.chain), DevOf(fp.fs), fp.chain, fp.dirSect)
    // what the device does not hold the flag tells, and a flush at the end brings it there
    ensures res == Ok && old(Accounted(fp)) ==> Accounted(fp)
    ensures res == Ok && old(Accounted(fp)) && reqs != [] && reqs[|reqs| - 1].Flush? ==> OnDevice(fp)
    // and unless a FAT12 entry has been left half stored, the whole table stays a forest of disjoint chains
    ensures fp.fs.torn == old(fp.fs.torn) && old(Rooted(fp.fs.Fat(), fp.chain)) ==>
              Rooted(fp.fs.Fat(), fp.chain) && res != IntErr
  {
    hide OnDevice, File.Placed, Serves, FatFs.Valid, FatFs.Fat, FatFs.Logical, Laid, Clean, Cursor, DamagedFat, OthersBut, FreeCount,
         Rooted, AllAccurate;
    AbstractReady(fp);
    ghost var g, d, chain := fp.fs.g, DevOf(fp.fs), fp.chain;
    VolumeIsGood(fp.fs);
    UntouchedBut(g, d, chain, fp.dirSect);
    FirstAccurate(fp);
    res, outs, states := Ok, [], [Abstract(fp)];
    while |outs| < |reqs|
      invariant fp.Inv() && fp.err == Ok == res && fp.Placed() && old(fp.fs.Log()).Onward(fp.fs.Log())
      invariant IsSession(states, fp.canWrite, reqs, outs) && states[0] == old(Abstract(fp)) && states[|outs|] == Abstract(fp)
      invariant old(FreeOk(fp.fs)) ==> FreeOk(fp.fs) && AllAccurate(states, g.nFatent)
      invariant OthersBut(g, d, chain, DevOf(fp.fs), fp.chain, fp.dirSect)
      invariant old(Accounted(fp)) ==> Accounted(fp) && (outs != [] && reqs[|outs| - 1].Flush? ==> OnDevice(fp))
    {
      var r := reqs[|outs|];
      assert r in reqs;
      ghost var d1, c1 := DevOf(fp.fs), fp.chain;
      var out;
      res, out := Serve(fp, r);
      ButOnward(g, d, chain, d1, c1, DevOf(fp.fs), fp.chain, fp.dirSect);
      if res != Ok { break; }
      NextAccurate(fp, states);
      states, outs := states + [Abstract(fp)], outs + [out];
    }
    SessionTable(fp, d, chain);
  }

  ghost predicate AllAccurate(states: seq<ByteFile>, nFatent: nat) {
    forall a :: a in states ==> Accurate(a, nFatent)
  }

  lemma FirstAccurate(fp: File)
    requires fp.Placed()
    ensures FreeOk(fp.fs) ==> AllAccurate([Abstract(fp)], fp.fs.g.nFatent)
  {
    hide Laid, FatFs.Fat;
  }

  lemma NextAccurate(fp: File, states: seq<ByteFile>)
    requires fp.Placed()
    ensures FreeOk(fp.fs) && AllAccurate(states, fp.fs.g.nFatent) ==> AllAccurate(states + [Abstract(fp)], fp.fs.g.nFatent)
  {
    hide Laid, FatFs.Fat;
  }

  /** The table at the end of a session. */
  lemma SessionTable(fp: File, d: Dev, chain: seq<nat>)
    requires fp.fs.Valid() && OthersBut(fp.fs.g, d, chain, DevOf(fp.fs), fp.chain, fp.dirSect)
    ensures fp.fs.torn == d.log.torn && Rooted(d.fat, chain) ==> Rooted(fp.fs.Fat(), fp.chain) && !DamagedFat(fp.fs)
  {
    hide FatFs.FsInfoTold, FatFs.Valid, FatFs.Fat, Rooted, OthersBut;
    if fp.fs.torn == d.log.torn && Rooted(d.fat, chain) {
      RootedKept(fp.fs.g, d, chain, DevOf(fp.fs), fp.chain, fp.dirSect);
      NotDamaged(fp);
    }
  }

  lemma NotDamaged(fp: File)
    requires fp.fs.Valid() && Rooted(fp.fs.Fat(), fp.chain)
    ensures !DamagedFat(fp.fs)
  {
    forall c | 2 <= c < fp.fs.g.nFatent ensures fp.fs.Fat()[c] != 1 {
      Undamaged(fp.fs.Fat(), c);
    }
  }

  lemma RootedKept(g: Geometry, d: Dev, chain: seq<nat>, d': Dev, chain': seq<nat>, x: nat)
    requires OthersBut(g, d, chain, d', chain', x) && d'.log.torn == d.log.torn && Rooted(d.fat, chain)
    ensures Rooted(d'.fat, chain')
  {
  }

  lemma AbstractReady(fp: File)
    requires fp.Inv() && fp.err == Ok
    ensures fp.Placed()
  {
  }

  /** What was written completely at p reads back from p, in every session. */
  lemma ReadBack(states: seq<ByteFile>, canWrite: bool, reqs: seq<Request>, outs: seq<seq<Byte>>, i: nat, bytes: seq<Byte>)
    requires IsSession(states, canWrite, reqs, outs) && i + 3 <= |outs|
    requires reqs[i] == WriteBytes(bytes) && states[i + 1].pos == states[i].pos + |bytes| < 0x1_0000_0000
    requires reqs[i + 1] == SeekTo(states[i].pos) && reqs[i + 2] == ReadBytes(|bytes|)
    ensures outs[i + 2] == bytes
  {
    var a, b, c := states[i], states[i + 1], states[i + 2];
    assert Serves(states[i], canWrite, reqs[i], states[i + 1], outs[i]);
    assert Serves(states[i + 1], canWrite, reqs[i + 1], states[i + 1 + 1], outs[i + 1]);
    assert Serves(states[i + 2], canWrite, reqs[i + 2], states[i + 2 + 1], outs[i + 2]);
    assert bytes[..|bytes|] == bytes;
    assert b.data[a.pos..a.pos + |bytes|] == bytes;
    assert c.pos == a.pos && c.data == b.data[..|b.data|];
  }

  /** With an accurate count, a write falls short below 4 GiB only when no cluster is free. */
  lemma ShortOnlyWhenFull(states: seq<ByteFile>, canWrite: bool, reqs: seq<Request>, outs: seq<seq<Byte>>, i: nat, n: nat)
    requires IsSession(states, canWrite, reqs, outs) && i < |outs| && reqs[i].WriteBytes? && n >= 2
    requires AllAccurate(states, n)
    requires states[i + 1].pos < states[i].pos + |reqs[i].bytes| && states[i + 1].pos != 0xFFFF_FFFF
    ensures states[i + 1].free == 0
  {
    assert Serves(states[i], canWrite, reqs[i], states[i + 1], outs[i]);
    assert states[i + 1] in states;
  }

  // ------------------------------------------------------------- two handles

  /** Two open files of one volume that share no cluster, with their entries in neither's clusters. */
  ghost predicate Beside(a: File, b: File)
    reads a`chain, b`chain
  {
    && a != b && a.fs == b.fs && a.buf != b.buf && Disjoint(b.chain, a.chain) && Disjoint(a.chain, b.chain)
    && a.dirSect !in Sectors(a.fs.g, b.chain) && b.dirSect !in Sectors(a.fs.g, a.chain)
  }

  /** Open, sound, and with a buffer on one of its own sectors. */
  ghost predicate Ready(fp: File)
    reads fp, fp.buf, fp.fs, fp.fs.win
  {
    fp.Inv() && fp.err == Ok && Holds(fp.fs.g, fp.chain, fp.sect)
  }

  /** The whole table is a forest, and both files' chains are whole chains of it. */
  ghost predicate BothRooted(a: File, b: File)
    reads a`chain, b`chain, a.fs, a.fs.win
  {
    a.fs == b.fs && a.fs.Valid() && Rooted(a.fs.Fat(), a.chain) && Rooted(a.fs.Fat(), b.chain)
  }

  /** The other file's chain stays a whole one too. */
  lemma RootedBeside(g: Geometry, d: Dev, chain: seq<nat>, d': Dev, chain': seq<nat>, x: nat, f: FileView)
    requires OthersBut(g, d, chain, d', chain', x) && d'.log.torn == d.log.torn
    requires Rooted(d.fat, chain) && Rooted(d.fat, f.chain)
    requires Laid(g, d, f) && Disjoint(f.chain, chain)
    ensures Rooted(d'.fat, chain') && Rooted(d'.fat, f.chain)
  {
    hide Sectors, PowerOfTwo, Sound, Head;
    if f.chain != [] {
      ChainAllocated(d.fat, f.chain);
      assert f.chain[0] in f.chain;
    }
  }

  /** A request on one handle leaves the other as it was: sound, with the same bytes at the same position. */
  method ServeBeside(a: File, b: File, r: Request) returns (res: FResult, out: seq<Byte>)
    requires Ready(a) && Ready(b) && Beside(a, b) && (r.WriteBytes? ==> |r.bytes| < 0x1_0000_0000)
    modifies a, a.buf, a.fs, a.fs.win
    ensures Ready(b) && Beside(a, b) && old(a.Placed() && b.Placed()) && b.Placed() && old(a.fs.Log()).Onward(a.fs.Log())
    ensures b.Data() == old(b.Data()) && b.fptr == old(b.fptr)
    ensures a.fs.torn == old(a.fs.torn) && old(BothRooted(a, b)) ==> BothRooted(a, b)
    ensures res == Ok ==> (Ready(a) <==> old(KeepsBuffer(a.fs.g, a.View(), r)))
    ensures res == Ok ==> a.Inv() && a.err == Ok && a.Placed() && Serves(old(Abstract(a)), a.canWrite, r, Abstract(a), out)
    ensures res != Ok ==> a.Inv() && Excused(a, r, res, old(a.fs.faults))
  {
    hide FatFs.FsInfoTold, FatFs.Valid, FatFs.Fat, FatFs.Logical, Laid, Clean, Cursor, BytesOf, OthersBut, DamagedFat, Serves, FreeCount,
         Sectors, Holds, Disjoint, Rooted, KeepsBuffer;
    FileFacts(a);
    FileFacts(b);
    ghost var g, d, chain, f := a.fs.g, DevOf(a.fs), a.chain, b.View();
    OwnClusters(g, d, a.View());
    res, out := Serve(a, r);
    assert b.View() == f;
    VolumeIsGood(a.fs);
    OtherHandleKept(g, d, chain, DevOf(a.fs), a.chain, a.dirSect, f);
    DisjointBoth(f.chain, a.chain);
    if a.fs.torn == old(a.fs.torn) && Rooted(d.fat, chain) && Rooted(d.fat, f.chain) {
      RootedBeside(g, d, chain, DevOf(a.fs), a.chain, a.dirSect, f);
    }
  }

  /** What a caller can see: inside a sector, with nothing behind the position, or with no sector buffered. */
  predicate MayCut(fp: File)
    reads fp
  {
    fp.fptr % 512 != 0 || fp.fptr >= fp.objsize || fp.sect == 0
  }

  lemma CutKeepsBuffer(fp: File, r: Request)
    requires fp.Inv() && fp.err == Ok && (r.TruncateHere? ==> MayCut(fp))
    ensures KeepsBuffer(fp.fs.g, fp.View(), r)
  {
    hide FatFs.FsInfoTold, FatFs.Valid, FatFs.Fat, FatFs.Logical, Sectors, IsChain;
    if r.TruncateHere? && fp.fptr < fp.objsize {
      var g, f := fp.fs.g, fp.View();
      CursorClusterHere(g, f);
      CutPoint(g, DevOf(fp.fs), f);
      CutCursor(g, f);
      if f.fptr % 512 != 0 { HoldsSector(g, f.chain[..ClustersFor(g, f.fptr)], f.fptr / 512); }
    }
  }

  /** Without it the truncation leaves a clean buffer on a sector of a free cluster. */
  method CutToStale(fp: File) returns (res: FResult, ghost c: nat)
    requires Ready(fp) && !KeepsBuffer(fp.fs.g, fp.View(), TruncateHere)
    modifies fp`chain, fp`sclust, fp`objsize, fp`modified, fp`dirty, fp`err, fp.fs`alive, fp.fs`disk, fp.fs`wflag, fp.fs`faults,
             fp.fs`lostWrites, fp.fs`winsect, fp.fs.win, fp.fs`freeClst, fp.fs`torn, fp.fs`fsiFlag
    ensures fp.Inv()
    ensures res == Ok ==> fp.err == Ok && fp.Placed() && !fp.dirty && fp.sect != 0
    ensures res == Ok ==> 2 <= c < fp.fs.g.nFatent && fp.fs.Fat()[c] == 0 && fp.sect in Run(fp.fs.g, c)
  {
    hide FatFs.FsInfoTold, FatFs.Valid, FatFs.Fat, FatFs.Logical, Laid, Clean, Cursor, BytesOf, Sectors, OthersKept, FreeOk, FreeCount;
    FileFacts(fp);
    c := BufferFreed(fp.fs.g, DevOf(fp.fs), fp.View());
    res := Truncate(fp);
  }

  /** The cluster of the buffered sector is behind the cut. */
  lemma BufferFreed(g: Geometry, d: Dev, f: FileView) returns (c: nat)
    requires Laid(g, d, f) && 0 < g.csize && Cursor(g, f) && Holds(g, f.chain, f.sect) && !KeepsBuffer(g, f, TruncateHere)
    ensures f.fptr < f.objsize && f.sect != 0 && f.sect in Run(g, c)
    ensures exists q :: ClustersFor(g, f.fptr) <= q < |f.chain| && f.chain[q] == c
  {
    hide Sectors, IsChain, PowerOfTwo, ClustersFor;
    CursorClusterHere(g, f);
    CutPoint(g, d, f);
    var m := ClustersFor(g, f.fptr);
    var k :| 0 <= k < |Sectors(g, f.chain)| && Sectors(g, f.chain)[k] == f.sect;
    var q, a := Locate(g, f.chain, k);
    c := f.chain[q];
    assert Run(g, c)[a] == f.sect;
    if q < m {
      assert f.chain[..m][q] == c;
      AmongSectors(g, f.chain[..m], q, f.sect);
    }
  }

  /**
   From there a step that another file may make breaks this one's object: it takes the freed cluster and
   writes the sector that is still buffered here as clean.
   */
  lemma StaleBuffer(g: Geometry, d: Dev, f: FileView, c: nat, other: Sector) returns (d': Dev)
    requires Laid(g, d, f) && Clean(g, d, f) && !f.dirty && |d.view| == |d.disk|
    requires 2 <= c < g.nFatent && d.fat[c] == 0 && f.sect in Run(g, c) && f.sect != 0 && other != f.buf
    ensures OthersKept(g, d, [], d', [c]) && Laid(g, d', f) && !Clean(g, d', f)
    ensures d'.fat == d.fat[c := Truncated(g.fsType, EOC)]
  {
    hide Run, Sectors, PowerOfTwo, TableKept;
    EocEndsChain(g, EOC);
    var eoc := Truncated(g.fsType, EOC);
    d' := d.(fat := d.fat[c := eoc], disk := d.disk[f.sect := other], view := d.view[f.sect := other], winsect := 0xFFFF_FFFF);
    GrownTable(d.fat, [], c, eoc);
    ClustersAscend(g, c, g.nFatent);
    assert [] + [c] == [c] && Appended(d.fat, 0, c, eoc) == d'.fat;
    forall e | 2 <= e < |d.fat| && d.fat[e] != 0 ensures RunKeptBut(g, e, d, d', -1) {
      if g.ClusterBase(e) <= f.sect < g.ClusterBase(e) + g.csize { RunsApart(g, e, c, f.sect); }
    }
    FileSectors(g, d, f);
    if f.chain != [] { ChainAllocated(d.fat, f.chain); }
    forall i | 0 <= i < |f.chain| ensures d'.fat[f.chain[i]] == d.fat[f.chain[i]] {
      assert f.chain[i] in f.chain;
    }
  }

  /** And any call does after which another file shows other bytes in that sector, from the device. */
  lemma Overwritten(a: File, b: File, k: nat)
    requires a.Shaped() && a.err == Ok && !a.dirty && a.sect != 0 && b.Placed() && b.fs == a.fs
    requires k < |Sectors(b.fs.g, b.chain)| && Sectors(b.fs.g, b.chain)[k] == a.sect && !(b.dirty && b.sect == a.sect)
    requires 512 * k + 512 <= b.objsize && b.Data()[512 * k..512 * k + 512] != a.buf[..]
    ensures !a.Inv()
  {
    hide FatFs.FsInfoTold, FatFs.Valid, FatFs.Fat, FatFs.Logical, Laid, Sectors, BytesOf;
    var g, d := a.fs.g, DevOf(a.fs);
    if a.Inv() {
      forall i | 0 <= i < 512 ensures b.Data()[512 * k + i] == a.buf[i] {
        ByteAt(g, d, b.View(), 512 * k + i);
      }
    }
  }

  lemma DisjointBoth(p: seq<nat>, q: seq<nat>)
    requires Disjoint(p, q)
    ensures Disjoint(q, p)
  {
  }

  /** Two byte strings, of which one answers the request and the other stays. */
  datatype Pair = Pair(a: ByteFile, b: ByteFile)

  ghost predicate Same(x: ByteFile, y: ByteFile) {
    x.data == y.data && x.pos == y.pos
  }

  ghost predicate PairServes(p: Pair, first: bool, wa: bool, wb: bool, r: Request, q: Pair, out: seq<Byte>) {
    if first then Serves(p.a, wa, r, q.a, out) && Same(p.b, q.b) else Serves(p.b, wb, r, q.b, out) && Same(p.a, q.a)
  }

  ghost predicate IsInterleaving(states: seq<Pair>, wa: bool, wb: bool, turns: seq<bool>, reqs: seq<Request>, outs: seq<seq<Byte>>) {
    && |states| == |outs| + 1 && |outs| <= |reqs| == |turns|
    && forall i :: 0 <= i < |outs| ==> PairServes(states[i], turns[i], wa, wb, reqs[i], states[i + 1], outs[i])
  }

  /** Both handles are ready, and beside each other. */
  ghost predicate BothReady(a: File, b: File)
    reads a, a.buf, b, b.buf, a.fs, a.fs.win, b.fs, b.fs.win
  {
    Ready(a) && Ready(b) && Beside(a, b) && Beside(b, a) && a.Placed() && b.Placed()
  }

  ghost function Both(a: File, b: File): Pair
    requires BothReady(a, b)
    reads a, a.buf, b, b.buf, a.fs, a.fs.win, b.fs, b.fs.win
  {
    Pair(Abstract(a), Abstract(b))
  }

  method ServeTurn(a: File, b: File, first: bool, r: Request) returns (res: FResult, out: seq<Byte>)
    requires BothReady(a, b) && (r.TruncateHere? ==> MayCut(if first then a else b)) && (r.WriteBytes? ==> |r.bytes| < 0x1_0000_0000)
    modifies a, b, a.buf, b.buf, a.fs, a.fs.win
    ensures old(BothReady(a, b)) && a.fs == b.fs && old(a.fs.Log()).Onward(a.fs.Log())
    ensures res == Ok ==> BothReady(a, b) && PairServes(old(Both(a, b)), first, a.canWrite, b.canWrite, r, Both(a, b), out)
    ensures res != Ok ==> a.Inv() && b.Inv() && Excused(if first then a else b, r, res, old(a.fs.faults))
    ensures a.fs.torn == old(a.fs.torn) && old(BothRooted(a, b)) ==> BothRooted(a, b)
  {
    hide Ready, File.Inv, File.Placed, Serves, Beside, Excused, File.Data, BothRooted, KeepsBuffer;
    BesideSame(a, b);
    RootedEither(a, b);
    ReadyCut(if first then a else b, r);
    if first {
      res, out := ServeBeside(a, b, r);
      ReadySound(b);
    } else {
      res, out := ServeBeside(b, a, r);
      ReadySound(a);
    }
    RootedEither(a, b);
    if Beside(a, b) { BesideBoth(a, b); } else { BesideBoth(b, a); }
  }

  lemma ReadyCut(fp: File, r: Request)
    requires Ready(fp) && (r.TruncateHere? ==> MayCut(fp))
    ensures KeepsBuffer(fp.fs.g, fp.View(), r)
  {
    CutKeepsBuffer(fp, r);
  }

  /**
   Requests on two handles in any interleaving, up to the first error or to a truncation that might free the
   buffered sector: each handle is its own byte string.
   */
  method Interleave(a: File, b: File, turns: seq<bool>, reqs: seq<Request>)
    returns (res: FResult, outs: seq<seq<Byte>>, ghost states: seq<Pair>)
    requires BothReady(a, b) && |turns| == |reqs|
    requires forall r :: r in reqs && r.WriteBytes? ==> |r.bytes| < 0x1_0000_0000
    modifies a, b, a.buf, b.buf, a.fs, a.fs.win
    ensures IsInterleaving(states, a.canWrite, b.canWrite, turns, reqs, outs) && states[0] == old(Both(a, b))
    ensures res == Ok ==> BothReady(a, b) && states[|outs|] == Both(a, b)
    ensures res == Ok && |outs| < |reqs| ==> reqs[|outs|].TruncateHere? && !MayCut(if turns[|outs|] then a else b)
    ensures res != Ok ==> |outs| < |reqs| && a.Inv() && b.Inv() && a.fs == b.fs
    ensures res != Ok ==> Excused(if turns[|outs|] then a else b, reqs[|outs|], res, old(a.fs.faults))
    ensures a.fs.torn == old(a.fs.torn) && old(BothRooted(a, b)) ==> BothRooted(a, b)
  {
    hide BothReady, Both, File.Inv, FatFs.Valid, PairServes, DamagedFat, BothRooted;
    res, outs, states := Ok, [], [Both(a, b)];
    while |outs| < |reqs|
      invariant res == Ok && BothReady(a, b) && old(a.fs.Log()).Onward(a.fs.Log())
      invariant IsInterleaving(states, a.canWrite, b.canWrite, turns, reqs, outs)
      invariant states[0] == old(Both(a, b)) && states[|outs|] == Both(a, b)
      invariant a.fs.torn == old(a.fs.torn) && old(BothRooted(a, b)) ==> BothRooted(a, b)
    {
      var r, out := reqs[|outs|], [];
      assert r in reqs;
      if r.TruncateHere? && !MayCut(if turns[|outs|] then a else b) { return; }
      res, out := ServeTurn(a, b, turns[|outs|], r);
      if res != Ok { return; }
      states, outs := states + [Both(a, b)], outs + [out];
    }
  }

  lemma BesideSame(a: File, b: File)
    requires Beside(a, b)
    ensures a != b && a.fs == b.fs && a.buf != b.buf
  {
  }

  lemma ReadySound(fp: File)
    requires Ready(fp)
    ensures fp.Inv() && fp.err == Ok && fp.Placed()
  {
  }

  lemma RootedEither(a: File, b: File)
    requires a.fs == b.fs
    ensures BothRooted(a, b) <==> BothRooted(b, a)
  {
  }

  lemma BesideBoth(a: File, b: File)
    requires Beside(a, b)
    ensures Beside(b, a) && a.fs == b.fs
  {
  }
}
