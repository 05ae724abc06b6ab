/**
 Removing and stretching cluster chains, and the cached free count
 (ff.c, remove_chain, create_chain, f_getfree), proved against the array of links.
 */
module Allocation {
  import opened Bytes
  import opened Volume
  import opened Window
  import opened FatEntries
  import opened Chains

  /** The cached number of free clusters is either marked unknown or right. */
  ghost predicate FreeOk(fs: FatFs)
    requires fs.Valid()
    reads fs`disk, fs`wflag, fs`winsect, fs`lostWrites, fs.win, fs`freeClst
  {
    fs.g.nFatent >= 2 && fs.freeClst <= fs.g.nFatent - 2 ==> fs.freeClst == FreeCount(fs.Fat())
  }

  ghost function EndMark(fs: FatFs): (eoc: nat)
  {
    Truncated(fs.g.fsType, EOC)
  }

  /** What every FAT operation promises about the rest of the volume. */
  ghost predicate OnlyFatChanged(fs: FatFs, l: seq<Sector>, disk: seq<Sector>, winsect: nat)
    requires fs.Valid()
    reads fs`disk, fs`wflag, fs`winsect, fs`lostWrites, fs.win
  {
    && OutsideFatSame(fs.g, l, fs.Logical())
    && DataKept(fs.g, disk, winsect, fs.disk, fs.winsect)
  }

  // ------------------------------------------------------------- removing

  /** A cached count grows and stays one, an unknown one is left alone. */
  predicate Counted(was: Dword, now: Dword, nFatent: nat) {
    was <= now && (was + 2 <= nFatent ==> now + 2 <= nFatent) && (was + 2 > nFatent ==> now == was)
  }

  /** Facts about one step of the removal loop. */
  lemma {:induction false} UnlinkOnlyClears(fat: seq<nat>, c: nat, d: nat)
    requires 2 <= c < |fat| && d < |fat|
    ensures Unlink(fat, c).fat[d] == fat[d] || Unlink(fat, c).fat[d] == 0
    decreases NonZero(fat)
  {
    if fat[c] > 1 {
      NonZeroUpdate(fat, c);
      if fat[c] < |fat| {
        UnlinkOnlyClears(fat[c := 0], fat[c], d);
      }
    }
  }

  /** The table remove_chain starts its loop on. */
  ghost function Severed(fat: seq<nat>, pclst: nat, eoc: nat): (f: seq<nat>)
    ensures |f| == |fat|
  {
    if 0 < pclst < |fat| then fat[pclst := eoc] else fat
  }

  /** The loop after n rounds: the table, and the cluster it stands on. */
  ghost function Rounds(fat: seq<nat>, c: nat, n: nat): (r: (seq<nat>, nat))
    ensures |r.0| == |fat|
  {
    if n == 0 then (fat, c)
    else
      var (f, d) := Rounds(fat, c, n - 1);
      if d < |f| then (f[d := 0], f[d]) else (f, d)
  }

  /** The table after a call of remove_chain that may have broken off between two entries. */
  ghost predicate RemoveStep(fat: seq<nat>, f: seq<nat>, eoc: nat, clst: nat, pclst: nat)
    requires 2 <= clst < |fat|
  {
    || f == fat
    || f == Unlink(Severed(fat, pclst, eoc), clst).fat
    || exists n :: f == Rounds(Severed(fat, pclst, eoc), clst, n).0
  }

  /** The table after a call of create_chain: a device error may leave a chain of one cluster. */
  ghost predicate CreateStep(fat: seq<nat>, f: seq<nat>, eoc: nat, clst: nat, val: nat) {
    || f == fat
    || (Allocates(fat, clst, val) && f == Appended(fat, clst, val, eoc))
    || exists ncl :: 2 <= ncl < |fat| && fat[ncl] == 0 && f == Appended(fat, 0, ncl, eoc)
  }

  /** The table after a call of remove_chain that left an entry half stored: the first it stores, or the one of a round. */
  ghost predicate RemoveTorn(t: FsType, fat: seq<nat>, f: seq<nat>, eoc: nat, clst: nat, pclst: nat) {
    || (pclst != 0 && Torn(t, fat, f, pclst, EOC))
    || exists n :: Torn(t, Rounds(Severed(fat, pclst, eoc), clst, n).0, f, Rounds(Severed(fat, pclst, eoc), clst, n).1, 0)
  }

  /** The same for create_chain: the entry of the new cluster, or of the one it is linked from. */
  ghost predicate CreateTorn(t: FsType, fat: seq<nat>, f: seq<nat>, eoc: nat, clst: nat) {
    exists ncl: Dword :: 2 <= ncl < |fat| && fat[ncl] == 0 &&
      (Torn(t, fat, f, ncl, EOC) || (clst != 0 && Torn(t, Appended(fat, 0, ncl, eoc), f, clst, ncl)))
  }

  /** From a chain's own cluster, and severed behind the one before it, the loop is the cut. */
  lemma RemovalIsCut(fat: seq<nat>, p: seq<nat>, k: nat, eoc: nat)
    requires IsChain(fat, p) && k < |p|
    ensures 2 <= p[k] < |fat|
    ensures Unlink(Severed(fat, if k == 0 then 0 else p[k - 1], eoc), p[k]) == Removed(Cut(fat, p, k, eoc))
  {
    hide Unlink, Freed;
    SuffixIsChain(fat, p, k, eoc);
    UnlinkChain(if k == 0 then fat else fat[p[k - 1] := eoc], p[k..]);
  }

  method RemoveChain(fs: FatFs, clst: Dword, pclst: Dword) returns (res: FResult)
    requires fs.Valid()
    modifies fs`disk, fs`wflag, fs`faults, fs`lostWrites, fs`winsect, fs.win, fs`freeClst, fs`torn, fs`fsiFlag
    ensures fs.Valid() && old(fs.Log()).Onward(fs.Log())
    ensures OnlyFatChanged(fs, old(fs.Logical()), old(fs.disk), old(fs.winsect))
    ensures !(2 <= clst < fs.g.nFatent) || (pclst != 0 && !(2 <= pclst < fs.g.nFatent)) ==>
              res == IntErr && fs.Fat() == old(fs.Fat()) && fs.freeClst == old(fs.freeClst)
    ensures 2 <= clst < fs.g.nFatent && (pclst == 0 || 2 <= pclst < fs.g.nFatent) ==>
              var r := Unlink(Severed(old(fs.Fat()), pclst, EndMark(fs)), clst);
              && (res == Ok ==> r == Removed(fs.Fat()))
              && (res == IntErr ==> r == Corrupt(fs.Fat()))
              && (res == DiskErr ==> fs.faults > old(fs.faults))
              && (forall d :: 0 <= d < fs.g.nFatent && (pclst == 0 || d != pclst) && r.fat[d] == old(fs.Fat())[d] ==>
                    fs.Fat()[d] == old(fs.Fat())[d])
    ensures res == Ok || res == IntErr || res == DiskErr
    ensures fs.torn == old(fs.torn) && old(FreeOk(fs)) && (2 <= pclst < fs.g.nFatent ==> old(fs.Fat())[pclst] != 0) ==> FreeOk(fs)
    ensures Counted(old(fs.freeClst), fs.freeClst, fs.g.nFatent)
    ensures 2 <= clst < fs.g.nFatent && (pclst == 0 || 2 <= pclst < fs.g.nFatent) && fs.torn == old(fs.torn) ==>
              RemoveStep(old(fs.Fat()), fs.Fat(), EndMark(fs), clst, pclst)
    ensures fs.torn != old(fs.torn) ==> res == DiskErr && RemoveTorn(fs.g.fsType, old(fs.Fat()), fs.Fat(), EndMark(fs), clst, pclst)
  {
    hide FatFs.FsInfoTold, FatFs.Valid, FatFs.Logical, FatFs.Image, FatFs.Fat, Unlink;
    res := Ok;
    DiskBound(fs);
    if clst < 2 || clst >= fs.g.nFatent {
      return IntErr;
    }
    if pclst != 0 {
      res := PutFat(fs, pclst, EOC);
      if res != Ok { return; }
      EocEndsChain(fs.g, EOC);
      FreeBelowUpdate(old(fs.Fat()), fs.g.nFatent, pclst, EndMark(fs));
    }
    ghost var f0 := fs.Fat();
    assert f0 == Severed(old(fs.Fat()), pclst, EndMark(fs));
    res := RemoveLoop(fs, clst);
  }

  /** Mark one allocated cluster free and count it. */
  method FreeCluster(fs: FatFs, clst: Dword) returns (res: FResult)
    requires fs.Valid() && 2 <= clst < fs.g.nFatent && fs.Fat()[clst] != 0
    modifies fs`disk, fs`wflag, fs`faults, fs`lostWrites, fs`winsect, fs.win, fs`freeClst, fs`torn, fs`fsiFlag
    ensures fs.Valid() && old(fs.Log()).Onward(fs.Log())
    ensures OnlyFatChanged(fs, old(fs.Logical()), old(fs.disk), old(fs.winsect))
    ensures res == Ok || (res == DiskErr && fs.faults > old(fs.faults))
    ensures res == Ok ==> fs.Fat() == old(fs.Fat())[clst := 0]
    ensures res != Ok && fs.torn == old(fs.torn) ==> fs.Fat() == old(fs.Fat())
    ensures fs.torn != old(fs.torn) ==> res == DiskErr && Torn(fs.g.fsType, old(fs.Fat()), fs.Fat(), clst, 0)
    ensures forall d :: 0 <= d < fs.g.nFatent && d != clst ==> fs.Fat()[d] == old(fs.Fat())[d]
    ensures fs.torn == old(fs.torn) && old(FreeOk(fs)) ==> FreeOk(fs)
    // the count goes up with a cluster freed, if one is cached that is not the greatest
    ensures fs.freeClst == old(fs.freeClst) + if res == Ok && old(fs.freeClst) < fs.g.nFatent - 2 then 1 else 0
  {
    hide Tells, FatFs.Valid, FatFs.Logical, FatFs.Image, FatFs.Fat;
    ghost var f := fs.Fat();
    DiskBound(fs);
    FreeBelowUpdate(f, |f|, clst, 0);
    FreeBelowBound(f, |f|);
    res := PutFat(fs, clst, 0);
    if res != Ok { return; }
    if fs.freeClst < fs.g.nFatent - 2 {
      fs.freeClst := fs.freeClst + 1;
      fs.fsiFlag := SetBit0(fs.fsiFlag);
    }
  }

  /** The do-while loop of remove_chain: every turn turns a nonzero entry to zero. */
  method RemoveLoop(fs: FatFs, start: Dword) returns (res: FResult)
    requires fs.Valid() && 2 <= start < fs.g.nFatent
    modifies fs`disk, fs`wflag, fs`faults, fs`lostWrites, fs`winsect, fs.win, fs`freeClst, fs`torn, fs`fsiFlag
    ensures fs.Valid() && old(fs.Log()).Onward(fs.Log())
    ensures OnlyFatChanged(fs, old(fs.Logical()), old(fs.disk), old(fs.winsect))
    ensures res == Ok ==> Unlink(old(fs.Fat()), start) == Removed(fs.Fat())
    ensures res == IntErr ==> Unlink(old(fs.Fat()), start) == Corrupt(fs.Fat())
    ensures res == DiskErr ==> fs.faults > old(fs.faults)
    ensures res == Ok || res == IntErr || res == DiskErr
    ensures forall d :: 0 <= d < fs.g.nFatent && Unlink(old(fs.Fat()), start).fat[d] == old(fs.Fat())[d] ==> fs.Fat()[d] == old(fs.Fat())[d]
    ensures fs.torn == old(fs.torn) && old(FreeOk(fs)) ==> FreeOk(fs)
    ensures Counted(old(fs.freeClst), fs.freeClst, fs.g.nFatent)
    ensures res == DiskErr && fs.torn == old(fs.torn) ==> exists n :: fs.Fat() == Rounds(old(fs.Fat()), start, n).0
    ensures fs.torn != old(fs.torn) ==>
              && res == DiskErr
              && exists n :: Torn(fs.g.fsType, Rounds(old(fs.Fat()), start, n).0, fs.Fat(), Rounds(old(fs.Fat()), start, n).1, 0)
  {
    hide FatFs.FsInfoTold, FatFs.Valid, FatFs.Logical, FatFs.Image, FatFs.Fat, Unlink, Rounds, NonZero, FreeCount;
    var clst: Dword := start;
    ghost var n := 0;
    res := Ok;
    DiskBound(fs);
    ghost var f0 := fs.Fat();
    ghost var all := Unlink(f0, start);
    RoundsNext(f0, start, 0);
    while true
      invariant fs.Valid() && old(fs.Log()).Onward(fs.Log())
      invariant OnlyFatChanged(fs, old(fs.Logical()), old(fs.disk), old(fs.winsect))
      invariant 2 <= clst < fs.g.nFatent && Unlink(fs.Fat(), clst) == all
      invariant forall d :: 0 <= d < fs.g.nFatent ==> fs.Fat()[d] == f0[d] || (fs.Fat()[d] == 0 && all.fat[d] != f0[d])
      invariant old(FreeOk(fs)) ==> FreeOk(fs)
      invariant fs.torn == old(fs.torn) && Counted(old(fs.freeClst), fs.freeClst, fs.g.nFatent)
      invariant Rounds(f0, start, n) == (fs.Fat(), clst)
      decreases NonZero(fs.Fat())
    {
      DiskBound(fs);
      ghost var f := fs.Fat();
      UnlinkRound(f, clst);
      RoundsNext(f0, start, n);
      var nxt := GetFat(fs, clst);
      if nxt == 0 { return Ok; }
      if nxt == 1 { return IntErr; }
      if nxt == DISK_ERROR { return DiskErr; }
      res := FreeCluster(fs, clst);
      if res != Ok { return; }
      clst, n := nxt, n + 1;
      if clst >= fs.g.nFatent { return Ok; }
    }
  }

  function SetBit0(b: Byte): Byte {
    if b % 2 == 0 then b + 1 else b
  }

  /** One round: the loop ends, or the entry it stands on becomes free for good. */
  lemma UnlinkRound(fat: seq<nat>, c: nat)
    requires 2 <= c < |fat|
    ensures fat[c] == 0 ==> Unlink(fat, c) == Removed(fat)
    ensures fat[c] == 1 ==> Unlink(fat, c) == Corrupt(fat)
    ensures fat[c] > 1 ==>
              && Unlink(fat, c).fat[c] == 0 && NonZero(fat[c := 0]) < NonZero(fat)
              && Unlink(fat, c) == if fat[c] < |fat| then Unlink(fat[c := 0], fat[c]) else Removed(fat[c := 0])
  {
    if fat[c] > 1 {
      NonZeroUpdate(fat, c);
      if fat[c] < |fat| {
        UnlinkOnlyClears(fat[c := 0], fat[c], c);
      }
    }
  }

  lemma RoundsNext(fat: seq<nat>, c: nat, n: nat)
    ensures Rounds(fat, c, 0) == (fat, c)
    ensures Rounds(fat, c, n).1 < |fat| ==>
              var (f, d) := Rounds(fat, c, n); Rounds(fat, c, n + 1) == (f[d := 0], f[d])
  {
  }

  // ------------------------------------------------------------- stretching

  /** The cyclic search of create_chain from cluster scl. */
  method SearchFree(fs: FatFs, scl: Dword) returns (val: Dword)
    requires fs.Valid() && 1 <= scl < fs.g.nFatent
    modifies fs`disk, fs`wflag, fs`faults, fs`lostWrites, fs`winsect, fs.win
    ensures fs.Valid() && old(fs.Log()).Onward(fs.Log())
    ensures Quiet(old(fs.Pending()), old(fs.disk), fs.Pending(), fs.disk)
    ensures fs.Logical() == old(fs.Logical()) && fs.Fat() == old(fs.Fat())
    ensures DataKept(fs.g, old(fs.disk), old(fs.winsect), fs.disk, fs.winsect)
    ensures (val == DISK_ERROR && fs.faults > old(fs.faults)) || val == Search(fs.Fat(), scl) < 0x1000_0000
  {
    hide FatFs.FsInfoTold, FatFs.Valid, FatFs.Logical, FatFs.Image, FatFs.Fat;
    DiskBound(fs);
    ghost var f, l := fs.Fat(), fs.Logical();
    var ncl := scl;
    ghost var wrapped := false;
    while true
      invariant fs.Valid() && old(fs.Log()).Onward(fs.Log())
      invariant fs.Logical() == l && fs.Fat() == f
      invariant Quiet(old(fs.Pending()), old(fs.disk), fs.Pending(), fs.disk)
      invariant DataKept(fs.g, old(fs.disk), old(fs.winsect), fs.disk, fs.winsect)
      invariant wrapped ==> 2 <= ncl < scl && forall d :: scl < d < |f| ==> f[d] > 1
      invariant wrapped ==> forall d :: 2 <= d <= ncl ==> f[d] > 1
      invariant !wrapped ==> scl <= ncl < |f| && forall d :: scl < d <= ncl ==> f[d] > 1
      decreases !wrapped, |f| - ncl
    {
      ncl := ncl + 1;
      if ncl >= fs.g.nFatent {
        ncl := 2;
        wrapped := true;
        if ncl > scl {
          return 0;
        }
      }
      var cs := GetFat(fs, ncl);
      if cs == 0 {
        return ncl;
      }
      if cs == 1 || cs == DISK_ERROR {
        return cs;
      }
      if ncl == scl {
        return 0;
      }
    }
  }

  /** Which cluster to take: the one after clst if free, else search from the hint. */
  method FindCluster(fs: FatFs, clst: Dword) returns (val: Dword)
    requires fs.Valid() && (clst == 0 || 2 <= clst < fs.g.nFatent)
    modifies fs`disk, fs`wflag, fs`faults, fs`lostWrites, fs`winsect, fs.win
    ensures fs.Valid() && old(fs.Log()).Onward(fs.Log())
    ensures Quiet(old(fs.Pending()), old(fs.disk), fs.Pending(), fs.disk)
    ensures fs.Logical() == old(fs.Logical()) && fs.Fat() == old(fs.Fat())
    ensures DataKept(fs.g, old(fs.disk), old(fs.winsect), fs.disk, fs.winsect)
    ensures fs.g.nFatent >= 3
    ensures (val == DISK_ERROR && fs.faults > old(fs.faults)) || val == Pick(fs.Fat(), clst, fs.lastClst) < 0x1000_0000
  {
    hide FatFs.FsInfoTold, FatFs.Valid, FatFs.Logical, FatFs.Image, FatFs.Fat, Search;
    DiskBound(fs);
    var scl := clst;
    if clst == 0 {
      scl := fs.lastClst;
      if scl == 0 || scl >= fs.g.nFatent { scl := 1; }
    }
    if scl == clst {
      var ncl := scl + 1;
      if ncl >= fs.g.nFatent { ncl := 2; }
      var cs := GetFat(fs, ncl);
      if cs == 1 || cs == DISK_ERROR { return cs; }
      if cs == 0 { return ncl; }
      cs := fs.lastClst;
      if cs >= 2 && cs < fs.g.nFatent { scl := cs; }
    }
    val := SearchFree(fs, scl);
  }

  /** Mark the found cluster as an end and link it behind clst. */
  method LinkCluster(fs: FatFs, clst: Dword, ncl: Dword) returns (res: FResult)
    requires fs.Valid() && 2 <= ncl < fs.g.nFatent && (clst == 0 || 2 <= clst < fs.g.nFatent)
    modifies fs`disk, fs`wflag, fs`faults, fs`lostWrites, fs`torn, fs`winsect, fs.win
    ensures fs.Valid() && old(fs.Log()).Onward(fs.Log())
    ensures OnlyFatChanged(fs, old(fs.Logical()), old(fs.disk), old(fs.winsect))
    ensures res == Ok || (res == DiskErr && fs.faults > old(fs.faults))
    ensures res == Ok ==> fs.Fat() == Appended(old(fs.Fat()), clst, ncl, EndMark(fs)) && fs.g.InFat1(fs.winsect)
    ensures forall d :: 0 <= d < fs.g.nFatent && d != ncl && d != clst ==> fs.Fat()[d] == old(fs.Fat())[d]
    ensures res != Ok && fs.torn == old(fs.torn) ==>
              fs.Fat() == old(fs.Fat()) || fs.Fat() == Appended(old(fs.Fat()), 0, ncl, EndMark(fs))
    ensures fs.torn != old(fs.torn) ==>
              && res == DiskErr
              && (Torn(fs.g.fsType, old(fs.Fat()), fs.Fat(), ncl, EOC) ||
                  (clst != 0 && Torn(fs.g.fsType, Appended(old(fs.Fat()), 0, ncl, EndMark(fs)), fs.Fat(), clst, ncl)))
  {
    hide FatFs.FsInfoTold, FatFs.Valid, FatFs.Logical, FatFs.Image, FatFs.Fat;
    DiskBound(fs);
    res := PutFat(fs, ncl, EOC);
    if res == Ok && clst != 0 {
      EocEndsChain(fs.g, ncl);
      res := PutFat(fs, clst, ncl);
    }
  }

  method CreateChain(fs: FatFs, clst: Dword) returns (val: Dword)
    requires fs.Valid()
    modifies fs`disk, fs`wflag, fs`faults, fs`lostWrites, fs`winsect, fs.win, fs`freeClst, fs`torn, fs`fsiFlag, fs`lastClst
    ensures fs.Valid() && old(fs.Log()).Onward(fs.Log()) && fs.g.nFatent >= 3
    ensures OnlyFatChanged(fs, old(fs.Logical()), old(fs.disk), old(fs.winsect))
    // a damaged or foreign cluster to stretch
    ensures clst != 0 && (!(2 <= clst < fs.g.nFatent) || old(fs.Fat())[clst] < 2) ==> val == 1 || val == DISK_ERROR
    // it is already followed by another cluster
    ensures 2 <= clst < fs.g.nFatent && 2 <= old(fs.Fat())[clst] < fs.g.nFatent ==>
              val == old(fs.Fat())[clst] || val == DISK_ERROR
    // the end of a chain, or no chain yet
    ensures clst == 0 || (2 <= clst < fs.g.nFatent && old(fs.Fat())[clst] >= fs.g.nFatent) ==>
              val == DISK_ERROR || val == (if old(fs.freeClst) == 0 then 0 else Pick(old(fs.Fat()), clst, old(fs.lastClst)))
    // what changed
    ensures Allocates(old(fs.Fat()), clst, val) ==>
              && fs.Fat() == Appended(old(fs.Fat()), clst, val, EndMark(fs))
              && fs.lastClst == val && fs.g.InFat1(fs.winsect)
    ensures val != DISK_ERROR && !Allocates(old(fs.Fat()), clst, val) ==>
              fs.Fat() == old(fs.Fat()) && fs.freeClst == old(fs.freeClst) && fs.lastClst == old(fs.lastClst)
    // a device error leaves the count and the hint, even if a cluster was taken before it
    ensures val == DISK_ERROR ==> fs.faults > old(fs.faults) && fs.freeClst == old(fs.freeClst) && fs.lastClst == old(fs.lastClst)
    ensures val != DISK_ERROR && !Allocates(old(fs.Fat()), clst, val) ==> Quiet(old(fs.Pending()), old(fs.disk), fs.Pending(), fs.disk)
    ensures forall d :: 0 <= d < fs.g.nFatent && d != clst && old(fs.Fat())[d] != 0 ==> fs.Fat()[d] == old(fs.Fat())[d]
    ensures val != DISK_ERROR && old(FreeOk(fs)) ==> FreeOk(fs)
    ensures old(fs.freeClst) == 0 ==> fs.freeClst == 0
    ensures val == 0 && old(FreeOk(fs)) ==> forall c :: 2 <= c < fs.g.nFatent ==> old(fs.Fat())[c] != 0
    ensures fs.torn == old(fs.torn) ==> CreateStep(old(fs.Fat()), fs.Fat(), EndMark(fs), clst, val)
    ensures fs.torn != old(fs.torn) ==> val == DISK_ERROR && CreateTorn(fs.g.fsType, old(fs.Fat()), fs.Fat(), EndMark(fs), clst)
  {
    hide FatFs.FsInfoTold, FatFs.Valid, FatFs.Logical, FatFs.Image, FatFs.Fat, Pick, FreeBelow, OutsideFatSame, DataKept;
    DiskBound(fs);
    ghost var f := fs.Fat();
    OutsideFatMoved(fs.g, fs.Logical());
    NothingMoved(fs.g, fs.disk, fs.winsect);
    FreeBelowBound(f, |f|);
    if clst != 0 {
      var cs := GetFat(fs, clst);
      if cs < 2 { return 1; }
      if cs == DISK_ERROR { return cs; }
      if cs < fs.g.nFatent { return cs; }
    }
    if fs.freeClst == 0 { return 0; }
    PickComplete(f, clst, fs.lastClst);
    ghost var d1, w1 := fs.disk, fs.winsect;
    var ncl := FindCluster(fs, clst);
    DataKeptTwice(fs.g, old(fs.disk), old(fs.winsect), d1, w1, fs.disk, fs.winsect);
    ghost var d2, w2 := fs.disk, fs.winsect;
    if ncl < 2 || ncl == DISK_ERROR { return ncl; }
    val := TakeCluster(fs, clst, ncl);
    DataKeptTwice(fs.g, old(fs.disk), old(fs.winsect), d2, w2, fs.disk, fs.winsect);
  }

  /** Link the free cluster found and account for it. */
  method TakeCluster(fs: FatFs, clst: Dword, ncl: Dword) returns (val: Dword)
    requires fs.Valid() && Allocates(fs.Fat(), clst, ncl) && fs.freeClst != 0
    modifies fs`disk, fs`wflag, fs`faults, fs`lostWrites, fs`winsect, fs.win, fs`freeClst, fs`torn, fs`fsiFlag, fs`lastClst
    ensures fs.Valid() && old(fs.Log()).Onward(fs.Log())
    ensures OnlyFatChanged(fs, old(fs.Logical()), old(fs.disk), old(fs.winsect))
    ensures val == ncl || (val == DISK_ERROR && fs.faults > old(fs.faults))
    ensures val != ncl ==> fs.freeClst == old(fs.freeClst) && fs.lastClst == old(fs.lastClst)
    ensures val == ncl ==> fs.Fat() == Appended(old(fs.Fat()), clst, ncl, EndMark(fs)) && fs.lastClst == ncl && fs.g.InFat1(fs.winsect)
    ensures val == ncl && old(FreeOk(fs)) ==> FreeOk(fs)
    ensures val != ncl && fs.torn == old(fs.torn) ==> CreateStep(old(fs.Fat()), fs.Fat(), EndMark(fs), clst, val)
    ensures fs.torn != old(fs.torn) ==> val == DISK_ERROR && CreateTorn(fs.g.fsType, old(fs.Fat()), fs.Fat(), EndMark(fs), clst)
    ensures forall d :: 0 <= d < fs.g.nFatent && d != clst && old(fs.Fat())[d] != 0 ==> fs.Fat()[d] == old(fs.Fat())[d]
  {
    hide Tells, FatFs.Valid, FatFs.Logical, FatFs.Image, FatFs.Fat, FreeBelow, OutsideFatSame, DataKept;
    DiskBound(fs);
    ghost var f := fs.Fat();
    FreeBelowUpdate(f, |f|, ncl, EndMark(fs));
    EocEndsChain(fs.g, EOC);
    if clst != 0 {
      FreeBelowUpdate(f[ncl := EndMark(fs)], |f|, clst, ncl);
    }
    var res := LinkCluster(fs, clst, ncl);
    val := DISK_ERROR;  // put_fat on a cluster in range has no other failure
    if res == Ok {
      fs.lastClst := ncl;
      if fs.freeClst > 0 && fs.freeClst <= fs.g.nFatent - 2 {
        fs.freeClst := fs.freeClst - 1;
        fs.fsiFlag := SetBit0(fs.fsiFlag);
      }
      val := ncl;
    }
  }

  /**
   A device error between its two stores strands the cluster found: it is in use, as a chain of its own, and
   the cached count, which has been left alone, is one too high.
   */
  lemma StrandedCluster(fat: seq<nat>, f: seq<nat>, eoc: nat, clst: nat, val: nat)
    requires CreateStep(fat, f, eoc, clst, val) && !Allocates(fat, clst, val) && eoc > 0
    ensures f != fat ==> FreeCount(f) == FreeCount(fat) - 1
  {
    if f != fat {
      var ncl :| 2 <= ncl < |fat| && fat[ncl] == 0 && f == Appended(fat, 0, ncl, eoc);
      FreeBelowUpdate(fat, |fat|, ncl, eoc);
    }
  }

  /** val is a cluster that this call took from the free ones. */
  ghost predicate Allocates(fat: seq<nat>, clst: nat, val: nat) {
    && 2 <= val < |fat| && fat[val] == 0
    && (clst == 0 || (2 <= clst < |fat| && fat[clst] >= |fat|))
  }

  // ------------------------------------------------------------- counting free clusters

  /** Zero entries among the two reserved ones, which only the word scan looks at. */
  ghost function ReservedZeros(fat: seq<nat>): nat
    requires |fat| >= 2
  {
    (if fat[0] == 0 then 1 else 0) + (if fat[1] == 0 then 1 else 0)
  }

  /** All zero entries among the first k. */
  ghost function ZerosBelow(fat: seq<nat>, k: nat): nat
    requires k <= |fat|
  {
    if k == 0 then 0 else ZerosBelow(fat, k - 1) + (if fat[k - 1] == 0 then 1 else 0)
  }

  lemma {:induction false} ZerosAreFree(fat: seq<nat>, k: nat)
    requires 2 <= k <= |fat|
    ensures ZerosBelow(fat, k) == FreeBelow(fat, k) + ReservedZeros(fat)
  {
    if k > 2 {
      ZerosAreFree(fat, k - 1);
    } else {
      assert ZerosBelow(fat, 1) == (if fat[0] == 0 then 1 else 0);
    }
  }

  /** What the scan of f_getfree arrives at. */
  ghost function Scanned(t: FsType, fat: seq<nat>): nat
    requires |fat| >= 2
  {
    FreeCount(fat) + if t == Fat12 then 0 else ReservedZeros(fat)
  }

  /** The scan is the true count exactly when it skips, or finds in use, both reserved entries. */
  lemma ScanIsFreeCount(t: FsType, fat: seq<nat>)
    requires |fat| >= 2
    ensures Scanned(t, fat) == FreeCount(fat) <==> t == Fat12 || (fat[0] != 0 && fat[1] != 0)
  {
  }

  method GetFree(fs: FatFs) returns (res: FResult, nclst: Dword)
    requires fs.Valid()
    modifies fs`disk, fs`wflag, fs`faults, fs`lostWrites, fs`winsect, fs.win, fs`freeClst, fs`fsiFlag
    ensures fs.Valid() && old(fs.Log()).Onward(fs.Log())
    ensures fs.Logical() == old(fs.Logical()) && fs.Fat() == old(fs.Fat())
    ensures DataKept(fs.g, old(fs.disk), old(fs.winsect), fs.disk, fs.winsect)
    ensures fs.g.nFatent >= 3
    ensures res == DiskErr ==> fs.faults > old(fs.faults)
    ensures res == IntErr ==> exists c :: 2 <= c < fs.g.nFatent && fs.Fat()[c] == 1
    ensures res == Ok || res == DiskErr || res == IntErr
    ensures res != Ok ==> fs.freeClst == old(fs.freeClst)
    ensures res == Ok ==> nclst == fs.freeClst
    ensures res == Ok ==> fs.freeClst == if old(fs.freeClst) <= fs.g.nFatent - 2 then old(fs.freeClst)
                                         else Scanned(fs.g.fsType, fs.Fat())
    // only a FAT12 scan looks for damaged entries
    ensures res == Ok && fs.g.fsType == Fat12 && old(fs.freeClst) > fs.g.nFatent - 2 ==>
              forall c :: 2 <= c < fs.g.nFatent ==> fs.Fat()[c] != 1
  {
    hide FatFs.Valid, FatFs.Logical, FatFs.Image, FatFs.Fat;
    DiskBound(fs);
    res, nclst := Ok, 0;
    if fs.freeClst <= fs.g.nFatent - 2 {
      nclst := fs.freeClst;
      return;
    }
    var nfree;
    if fs.g.fsType == Fat12 {
      res, nfree := CountEntries(fs);
    } else {
      res, nfree := ScanSectors(fs);
      ZerosAreFree(fs.Fat(), fs.g.nFatent);
    }
    if res == Ok {
      nclst := nfree;
      fs.freeClst := nfree;
      fs.fsiFlag := SetBit0(fs.fsiFlag);
    }
  }

  /** FAT12: entry by entry. */
  method CountEntries(fs: FatFs) returns (res: FResult, nfree: Dword)
    requires fs.Valid()
    modifies fs`disk, fs`wflag, fs`faults, fs`lostWrites, fs`winsect, fs.win
    ensures fs.Valid() && old(fs.Log()).Onward(fs.Log())
    ensures fs.Logical() == old(fs.Logical()) && fs.Fat() == old(fs.Fat())
    ensures DataKept(fs.g, old(fs.disk), old(fs.winsect), fs.disk, fs.winsect)
    ensures res == Ok || res == DiskErr || res == IntErr
    ensures res == Ok ==> nfree == FreeCount(fs.Fat()) && forall c :: 2 <= c < fs.g.nFatent ==> fs.Fat()[c] != 1
    ensures res == DiskErr ==> fs.faults > old(fs.faults)
    ensures res == IntErr ==> exists c :: 2 <= c < fs.g.nFatent && fs.Fat()[c] == 1
  {
    hide FatFs.FsInfoTold, FatFs.Valid, FatFs.Logical, FatFs.Image, FatFs.Fat;
    DiskBound(fs);
    ghost var f, l := fs.Fat(), fs.Logical();
    var clst := 2;
    nfree := 0;
    while clst < fs.g.nFatent
      invariant fs.Valid() && old(fs.Log()).Onward(fs.Log())
      invariant fs.Logical() == l && fs.Fat() == f
      invariant DataKept(fs.g, old(fs.disk), old(fs.winsect), fs.disk, fs.winsect)
      invariant 2 <= clst <= |f| && nfree == FreeBelow(f, clst) <= clst && forall c :: 2 <= c < clst ==> f[c] != 1
    {
      var stat := GetFat(fs, clst);
      if stat == DISK_ERROR { return DiskErr, nfree; }
      if stat == 1 { return IntErr, nfree; }
      if stat == 0 { nfree := nfree + 1; }
      clst := clst + 1;
    }
    res := Ok;
  }

  /** One 16- or 32-bit entry of the sector in the window is zero. */
  method EntryIsZero(fs: FatFs, c: nat) returns (zero: bool)
    requires fs.Valid() && fs.g.fsType != Fat12 && c < fs.g.nFatent
    requires fs.winsect == fs.g.fatbase + EntryPos(fs.g.fsType, c) / 512
    ensures zero <==> fs.Fat()[c] == 0
  {
    hide FatFs.FsInfoTold, FatFs.Valid, FatFs.Logical, FatFs.Image;
    EntryAddress(fs, c);
    var v;
    if fs.g.fsType == Fat16 {
      v := LoadEntry16(fs, c);
    } else {
      v := LoadEntry32(fs, c);
    }
    TableAt(fs.g.fsType, fs.g.nFatent, fs.Image(), c);
    zero := v == 0;
  }

  /** Where the scan stands before entry c: a sector to load next, or an offset in the loaded one. */
  lemma ScanPosition(t: FsType, c: nat)
    requires t != Fat12
    ensures var p, p' := EntryPos(t, c), EntryPos(t, c + 1);
            && p' % 512 == (p % 512 + EntryLen(t)) % 512
            && (p % 512 == 0 ==> (p + 511) / 512 == p / 512 && (p' + 511) / 512 == p / 512 + 1)
            && (p % 512 != 0 ==> (p + 511) / 512 == p / 512 + 1 && (p' + 511) / 512 == p / 512 + 1)
  {
    if t == Fat16 {
      WordPosition(c / 256, 2 * (c % 256), 2);
    } else {
      WordPosition(c / 128, 4 * (c % 128), 4);
    }
  }

  lemma WordPosition(q: nat, r: nat, w: nat)
    requires 0 < w && r + w <= 512
    ensures var p, p' := 512 * q + r, 512 * q + r + w;
            && p' % 512 == (p % 512 + w) % 512
            && (p % 512 == 0 ==> (p + 511) / 512 == p / 512 && (p' + 511) / 512 == p / 512 + 1)
            && (p % 512 != 0 ==> (p + 511) / 512 == p / 512 + 1 && (p' + 511) / 512 == p / 512 + 1)
  {
    ModUnique(512 * q + r, 512, q, r);
    ModUnique(512 * q + r + w + 511, 512, q + 1, r + w - 1);
    if r == 0 {
      ModUnique(512 * q + 511, 512, q, 511);
    } else {
      ModUnique(512 * q + r + 511, 512, q + 1, r - 1);
    }
    if r + w < 512 {
      ModUnique(512 * q + r + w, 512, q, r + w);
    } else {
      ModUnique(512 * q + r + w, 512, q + 1, 0);
    }
  }

  lemma EntryZero(t: FsType)
    ensures EntryPos(t, 0) == 0
  {
  }

  /** FAT16/32: sector by sector, from entry 0 on. */
  method ScanSectors(fs: FatFs) returns (res: FResult, nfree: Dword)
    requires fs.Valid() && fs.g.fsType != Fat12
    modifies fs`disk, fs`wflag, fs`faults, fs`lostWrites, fs`winsect, fs.win
    ensures fs.Valid() && old(fs.Log()).Onward(fs.Log())
    ensures fs.Logical() == old(fs.Logical()) && fs.Fat() == old(fs.Fat())
    ensures DataKept(fs.g, old(fs.disk), old(fs.winsect), fs.disk, fs.winsect)
    ensures res == Ok || (res == DiskErr && fs.faults > old(fs.faults))
    ensures res == Ok ==> nfree == ZerosBelow(fs.Fat(), fs.g.nFatent)
  {
    hide FatFs.FsInfoTold, FatFs.Valid, FatFs.Logical, FatFs.Image, FatFs.Fat, EntryPos;
    DiskBound(fs);
    ghost var f, l := fs.Fat(), fs.Logical();
    assert EntryPos(fs.g.fsType, 0) == 0 by { EntryZero(fs.g.fsType); }
    var clst := fs.g.nFatent;          // entries left
    var sect := fs.g.fatbase;
    var i := 0;                        // byte offset in the sector
    nfree := 0;
    while clst > 0
      invariant fs.Valid() && old(fs.Log()).Onward(fs.Log())
      invariant fs.Logical() == l && fs.Fat() == f
      invariant DataKept(fs.g, old(fs.disk), old(fs.winsect), fs.disk, fs.winsect)
      invariant 0 <= clst <= |f| && nfree == ZerosBelow(f, |f| - clst) <= |f| - clst
      invariant i == EntryPos(fs.g.fsType, |f| - clst) % 512
      invariant sect == fs.g.fatbase + (EntryPos(fs.g.fsType, |f| - clst) + 511) / 512
      invariant i != 0 ==> fs.winsect == sect - 1
    {
      ghost var c := |f| - clst;
      EntryAddress(fs, c);
      ScanPosition(fs.g.fsType, c);
      if i == 0 {
        res := MoveToFatByte(fs, 512 * (sect - fs.g.fatbase));
        if res != Ok { return; }
        sect := sect + 1;
      }
      var zero := EntryIsZero(fs, fs.g.nFatent - clst);
      if zero { nfree := nfree + 1; }
      i := (i + EntryLen(fs.g.fsType)) % 512;
      clst := clst - 1;
    }
    res := Ok;
  }
}
