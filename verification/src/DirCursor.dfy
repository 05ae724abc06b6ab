/**
 The directory cursor (ff.c, dir_sdi, dir_next without stretching): setting an index
 directly and stepping to it entry by entry must end on the same entry.
 */
module DirCursor {
  import opened Bytes
  import opened Volume
  import opened Window
  import opened FatEntries
  import opened Chains
  import opened Layout
  import opened FileState

  const MAX_DIR: Dword := 0x20_0000
  const SZDIRE := 32

  class Dir {
    const fs: FatFs
    const sclust: Dword     // start cluster, 0: root directory
    var dptr: Dword
    var clust: Dword        // current cluster, 0: static root table
    var sect: nat           // current sector, 0: no more entries
    var ofs: nat            // offset of the entry in the window

    constructor (fs: FatFs, sclust: Dword)
      ensures this.fs == fs && this.sclust == sclust && Pos() == DirPos(0, 0, 0, 0)
    {
      this.fs, this.sclust := fs, sclust;
      dptr, clust, sect, ofs := 0, 0, 0, 0;
    }

    ghost function Pos(): DirPos
      reads this
    {
      DirPos(dptr, clust, sect, ofs)
    }
  }

  datatype DirPos = DirPos(dptr: int, clust: int, sect: int, ofs: int)

  /** Where a cursor operation arrives: on an entry, behind the last one, or on a damaged chain. */
  datatype Arrival = At(pos: DirPos) | End | Broken

  // ------------------------------------------------------------- specification

  datatype Place = Place(clst: int, rest: int) | Nowhere

  /** Follow the chain from clst over ofs bytes, csz bytes a cluster. */
  ghost function Follow(fat: seq<nat>, csz: nat, clst: int, ofs: nat): (p: Place)
    requires csz > 0
    decreases ofs
  {
    if ofs < csz then Place(clst, ofs)
    else if !(2 <= clst < |fat|) then Nowhere
    else
      var nxt := fat[clst];
      if !(2 <= nxt < |fat|) then Nowhere else Follow(fat, csz, nxt, ofs - csz)
  }

  /** The table starts at this cluster; 0 for the static root directory. */
  ghost function StartCluster(g: Geometry, sclust: Dword): int {
    if sclust == 0 && g.fsType == Fat32 then g.dirbase else sclust
  }

  ghost function InClusterOf(g: Geometry, clst: Dword, rest: int, ofs: int): Arrival
    requires 2 <= g.nFatent
  {
    var s := Clst2Sect(g, clst);
    if s == 0 then Broken else At(DirPos(ofs, clst, s + rest / 512, rest % 512))
  }

  /** dir_sdi */
  ghost function Sdi(g: Geometry, fat: seq<nat>, sclust: Dword, ofs: nat): Arrival
    requires 0 < g.csize && 2 <= g.nFatent && |fat| == g.nFatent <= 0x1000_0000 && g.dirbase < 0x1_0000_0000
  {
    if ofs >= MAX_DIR || ofs % SZDIRE != 0 then Broken
    else
      var clst := StartCluster(g, sclust);
      if clst == 0 then
        if ofs / SZDIRE >= g.nRootdir || g.dirbase == 0 then Broken else At(DirPos(ofs, 0, g.dirbase + ofs / 512, ofs % 512))
      else
        var p := Follow(fat, 512 * g.csize, clst, ofs);
        if p.Nowhere? || !(0 <= p.clst < 0x1_0000_0000) then Broken else InClusterOf(g, p.clst, p.rest, ofs)
  }

  /** dir_next with stretch = 0 */
  ghost function Next(g: Geometry, fat: seq<nat>, p: DirPos): Arrival
    requires 0 < g.csize && 2 <= g.nFatent && |fat| == g.nFatent <= 0x1000_0000
  {
    var ofs := p.dptr + SZDIRE;
    if ofs >= MAX_DIR || p.sect == 0 then End
    else if ofs % 512 != 0 then At(DirPos(ofs, p.clust, p.sect, ofs % 512))
    else if p.clust == 0 then
      if ofs / SZDIRE >= g.nRootdir then End else At(DirPos(ofs, 0, p.sect + 1, 0))
    else if ofs / 512 % g.csize != 0 then At(DirPos(ofs, p.clust, p.sect + 1, 0))
    else if !(2 <= p.clust < |fat|) then Broken
    else
      var nxt := fat[p.clust];
      if nxt <= 1 then Broken
      else if nxt >= |fat| then End
      else At(DirPos(ofs, nxt, Clst2Sect(g, nxt), 0))
  }

  // ------------------------------------------------------------- agreement

  lemma {:induction false} FollowOffset(fat: seq<nat>, csz: nat, clst: int, ofs: nat) returns (q: nat)
    requires csz > 0 && Follow(fat, csz, clst, ofs).Place?
    ensures var p := Follow(fat, csz, clst, ofs); 0 <= p.rest < csz && ofs == csz * q + p.rest
    decreases ofs
  {
    if ofs < csz {
      q := 0;
    } else {
      var r := FollowOffset(fat, csz, fat[clst], ofs - csz);
      q := r + 1;
      assert csz * q == csz * r + csz;
    }
  }

  /** One entry further along the chain. */
  lemma {:induction false} FollowStep(fat: seq<nat>, csz: nat, clst: int, ofs: nat)
    requires csz > 0 && csz % 32 == 0 && ofs % 32 == 0
    ensures Follow(fat, csz, clst, ofs + 32) ==
            var p := Follow(fat, csz, clst, ofs);
            if p.Nowhere? then Nowhere
            else if p.rest + 32 < csz then Place(p.clst, p.rest + 32)
            else if !(2 <= p.clst < |fat|) || !(2 <= fat[p.clst] < |fat|) then Nowhere
            else Place(fat[p.clst], 0)
    decreases ofs
  {
    if ofs >= csz && 2 <= clst < |fat| && 2 <= fat[clst] < |fat| {
      FollowStep(fat, csz, fat[clst], ofs - csz);
    } else if ofs < csz {
      MultiplesOf32(ofs, csz);
    }
  }

  lemma MultiplesOf32(a: nat, b: nat)
    requires a % 32 == 0 && b % 32 == 0 && a < b
    ensures a + 32 <= b
  {
  }

  lemma SectorChange(m: nat, rest: nat, ofs: nat)
    requires ofs == 512 * m + rest && rest % 32 == 0
    ensures (ofs + 32) % 512 == (rest + 32) % 512 && ofs % 512 == rest % 512
    ensures (ofs + 32) / 512 == m + (rest + 32) / 512
    ensures (rest + 32) / 512 == if (rest + 32) % 512 == 0 then rest / 512 + 1 else rest / 512
  {
    var q, t := rest / 512, rest % 512 / 32;
    assert rest == 512 * q + 32 * t;
    if t == 15 {
      assert rest + 32 == 512 * (q + 1) && ofs + 32 == 512 * (m + q + 1);
    } else {
      assert rest + 32 == 512 * q + (32 * t + 32) && ofs + 32 == 512 * (m + q) + (32 * t + 32);
    }
  }

  lemma BlockChange(c: nat, q: nat, a: nat)
    requires 0 < a <= c
    ensures (c * q + a) % c == 0 <==> a == c
  {
    if a < c {
      ModUnique(c * q + a, c, q, a);
    } else {
      assert c * q + a == c * (q + 1);
      ModUnique(c * q + a, c, q + 1, 0);
    }
  }

  /** A new cluster starts exactly where the byte offset in the old one reaches its size. */
  lemma ClusterChange(c: nat, q: nat, rest: nat, ofs: nat)
    requires 0 < c && ofs == 512 * c * q + rest && rest + 32 <= 512 * c && rest % 32 == 0
    ensures (ofs + 32) % 512 == (rest + 32) % 512 && ofs % 512 == rest % 512
    ensures (rest + 32) % 512 != 0 ==> rest + 32 < 512 * c && (rest + 32) / 512 == rest / 512
    ensures (rest + 32) % 512 == 0 ==> (rest + 32) / 512 == rest / 512 + 1
    ensures (rest + 32) % 512 == 0 ==> ((ofs + 32) / 512 % c == 0 <==> rest + 32 == 512 * c)
  {
    var m := c * q;
    assert 512 * c * q == 512 * m;
    SectorChange(m, rest, ofs);
    WithinBlock(c, rest);
    if (rest + 32) % 512 == 0 {
      BlockChange(c, q, (rest + 32) / 512);
    }
  }

  lemma WithinBlock(c: nat, rest: nat)
    requires rest + 32 <= 512 * c
    ensures (rest + 32) / 512 <= c && ((rest + 32) % 512 == 0 ==> ((rest + 32) / 512 == c <==> rest + 32 == 512 * c))
    ensures (rest + 32) % 512 != 0 ==> rest + 32 < 512 * c
  {
  }

  /** In a cluster chain: stepping from where the index ofs is gives where the index ofs + 32 is. */
  lemma ChainAgrees(g: Geometry, fat: seq<nat>, sclust: Dword, ofs: nat)
    requires 0 < g.csize && 2 <= g.nFatent && |fat| == g.nFatent <= 0x1000_0000 && g.dirbase < 0x1_0000_0000 && g.database > 0
    requires StartCluster(g, sclust) != 0 && ofs % 32 == 0 && ofs + 32 < MAX_DIR
    requires Sdi(g, fat, sclust, ofs).At?
    ensures Sdi(g, fat, sclust, ofs + 32).At? <==> Next(g, fat, Sdi(g, fat, sclust, ofs).pos).At?
    ensures Sdi(g, fat, sclust, ofs + 32).At? ==> Next(g, fat, Sdi(g, fat, sclust, ofs).pos) == Sdi(g, fat, sclust, ofs + 32)
  {
    hide Follow, Clst2Sect;
    var csz := 512 * g.csize;
    var clst := StartCluster(g, sclust);
    FollowStep(fat, csz, clst, ofs);
    var p := Follow(fat, csz, clst, ofs);
    var q := FollowOffset(fat, csz, clst, ofs);
    RestAligned(g.csize, q, p.rest, ofs);
    MultiplesOf32(p.rest, csz);
    ClusterChange(g.csize, q, p.rest, ofs);
    Clst2SectIsBase(g, p.clst);
    if 2 <= p.clst < |fat| && 2 <= fat[p.clst] < |fat| {
      Clst2SectIsBase(g, fat[p.clst]);
    }
  }

  lemma RestAligned(c: nat, q: nat, rest: nat, ofs: nat)
    requires ofs == 512 * c * q + rest && ofs % 32 == 0
    ensures rest % 32 == 0
  {
    var m := c * q;
    assert 512 * c * q == 512 * m;
    assert ofs == 32 * (16 * m) + rest;
  }

  /** In the static root table, whose size is a whole number of sectors. */
  lemma StaticAgrees(g: Geometry, fat: seq<nat>, sclust: Dword, ofs: nat)
    requires 0 < g.csize && 2 <= g.nFatent && |fat| == g.nFatent <= 0x1000_0000 && 0 < g.dirbase < 0x1_0000_0000
    requires g.nRootdir % 16 == 0
    requires StartCluster(g, sclust) == 0 && ofs % 32 == 0 && ofs + 32 < MAX_DIR
    requires Sdi(g, fat, sclust, ofs).At?
    ensures Sdi(g, fat, sclust, ofs + 32).At? <==> Next(g, fat, Sdi(g, fat, sclust, ofs).pos).At?
    ensures Sdi(g, fat, sclust, ofs + 32).At? ==> Next(g, fat, Sdi(g, fat, sclust, ofs).pos) == Sdi(g, fat, sclust, ofs + 32)
  {
    hide Follow, Clst2Sect, InClusterOf;
    SectorChange(0, ofs, ofs);
    WholeSectors(ofs, g.nRootdir);
  }

  /** A table of whole sectors ends at the end of a sector. */
  lemma WholeSectors(ofs: nat, n: nat)
    requires ofs % 32 == 0 && n % 16 == 0 && ofs / 32 < n
    ensures (ofs + 32) / 32 == ofs / 32 + 1 && (ofs + 32) % 32 == 0
    ensures (ofs + 32) % 512 != 0 ==> (ofs + 32) / 32 < n
  {
    var e, k := ofs / 32, n / 16;
    assert ofs == 32 * e && n == 16 * k;
    if e + 1 == n {
      assert ofs + 32 == 512 * k;
    }
  }

  lemma SdiStaysBroken(g: Geometry, fat: seq<nat>, sclust: Dword, ofs: nat)
    requires 0 < g.csize && 2 <= g.nFatent && |fat| == g.nFatent <= 0x1000_0000 && g.dirbase < 0x1_0000_0000 && g.database > 0
    requires ofs % 32 == 0 && !Sdi(g, fat, sclust, ofs).At?
    ensures !Sdi(g, fat, sclust, ofs + 32).At?
  {
    hide Follow, Clst2Sect;
    var clst := StartCluster(g, sclust);
    if clst != 0 && ofs < MAX_DIR {
      FollowStep(fat, 512 * g.csize, clst, ofs);
      var p := Follow(fat, 512 * g.csize, clst, ofs);
      if p.Place? && 0 <= p.clst < 0x1_0000_0000 {
        Clst2SectIsBase(g, p.clst);
      }
    }
  }

  /** One step from where an offset is, and the next offset, agree. */
  lemma StepIsSet(g: Geometry, fat: seq<nat>, sclust: Dword, ofs: nat)
    requires g.Valid() && |fat| == g.nFatent && ofs % 32 == 0
    ensures 0 < g.csize && 2 <= g.nFatent <= 0x1000_0000 && g.dirbase < 0x1_0000_0000
    ensures Sdi(g, fat, sclust, ofs).At? ==>
              var n := Next(g, fat, Sdi(g, fat, sclust, ofs).pos);
              (Sdi(g, fat, sclust, ofs + 32).At? <==> n.At?) && (n.At? ==> n == Sdi(g, fat, sclust, ofs + 32))
  {
    RootIsSomewhere(g, sclust);
    hide Sdi, Next, StartCluster, Geometry.Valid;
    if Sdi(g, fat, sclust, ofs).At? {
      if ofs + 32 >= MAX_DIR {
        EndOfRange(g, fat, sclust, ofs);
      } else if StartCluster(g, sclust) == 0 {
        StaticAgrees(g, fat, sclust, ofs);
      } else {
        ChainAgrees(g, fat, sclust, ofs);
      }
    }
  }

  /** k steps from the top of the table. */
  ghost function Walk(g: Geometry, fat: seq<nat>, sclust: Dword, k: nat): Arrival
    requires 0 < g.csize && 2 <= g.nFatent && |fat| == g.nFatent <= 0x1000_0000 && g.dirbase < 0x1_0000_0000
  {
    if k == 0 then Sdi(g, fat, sclust, 0)
    else
      match Walk(g, fat, sclust, k - 1)
      case At(p) => Next(g, fat, p)
      case a => a
  }

  /** Setting index k and stepping k times reach the same entry, or both reach none. */
  lemma {:induction false} WalkIsSdi(g: Geometry, fat: seq<nat>, sclust: Dword, k: nat)
    requires g.Valid() && |fat| == g.nFatent
    ensures 0 < g.csize && 2 <= g.nFatent <= 0x1000_0000 && g.dirbase < 0x1_0000_0000
    ensures Walk(g, fat, sclust, k).At? <==> Sdi(g, fat, sclust, 32 * k).At?
    ensures Sdi(g, fat, sclust, 32 * k).At? ==> Walk(g, fat, sclust, k) == Sdi(g, fat, sclust, 32 * k)
  {
    hide Sdi, Next, StartCluster;
    RootIsSomewhere(g, sclust);
    if k > 0 {
      WalkIsSdi(g, fat, sclust, k - 1);
      var ofs := 32 * (k - 1);
      if Sdi(g, fat, sclust, ofs).At? {
        StepIsSet(g, fat, sclust, ofs);
      } else {
        SdiStaysBroken(g, fat, sclust, ofs);
      }
    }
  }

  lemma EndOfRange(g: Geometry, fat: seq<nat>, sclust: Dword, ofs: nat)
    requires 0 < g.csize && 2 <= g.nFatent && |fat| == g.nFatent <= 0x1000_0000 && g.dirbase < 0x1_0000_0000
    requires ofs + 32 >= MAX_DIR && Sdi(g, fat, sclust, ofs).At?
    ensures !Sdi(g, fat, sclust, ofs + 32).At? && !Next(g, fat, Sdi(g, fat, sclust, ofs).pos).At?
  {
  }

  lemma RootIsSomewhere(g: Geometry, sclust: Dword)
    requires g.Valid()
    ensures 0 < g.dirbase && 0 < g.database && g.nRootdir % 16 == 0 && 0 < g.csize && 2 <= g.nFatent <= 0x1000_0000
    ensures g.dirbase < 0x1_0000_0000
  {
  }

  // ------------------------------------------------------------- where that is

  /** The root directory of a FAT12 or FAT16 volume, which has no cluster chain. */
  predicate StaticRoot(g: Geometry, sclust: Dword) {
    sclust == 0 && g.fsType != Fat32
  }

  /** p is the chain of the directory that starts at sclust, 0 being the root; empty for a static root. */
  ghost predicate IsDirectory(g: Geometry, fat: seq<nat>, sclust: Dword, p: seq<nat>) {
    if StaticRoot(g, sclust) then p == [] else IsChain(fat, p) && p[0] == if sclust == 0 then g.dirbase else sclust
  }

  ghost function DirSectors(g: Geometry, p: seq<nat>): seq<nat> {
    if p == [] then Consecutive(g.dirbase, g.nRootdir / 16) else Sectors(g, p)
  }

  /** The directory has an entry k. */
  ghost predicate HasEntry(g: Geometry, p: seq<nat>, k: nat) {
    k < 0x1_0000 && k / 16 < |DirSectors(g, p)|
  }

  /** The cursor is on it: 16 entries of 32 bytes a sector, sector by sector. */
  ghost predicate OnEntry(g: Geometry, p: seq<nat>, k: nat, pos: DirPos) {
    && HasEntry(g, p, k)
    && pos.dptr == 32 * k && pos.sect == DirSectors(g, p)[k / 16] && pos.ofs == 32 * (k % 16)
    && (if p == [] then pos.clust == 0 else 0 < g.csize && k / 16 / g.csize < |p| && pos.clust == p[k / 16 / g.csize])
  }

  /** The answer to setting the offset ofs: on entry ofs / 32 of the directory, or there is none. */
  ghost predicate SetTo(g: Geometry, fat: seq<nat>, sclust: Dword, ofs: nat, a: Arrival) {
    forall p :: IsDirectory(g, fat, sclust, p) ==>
      if a.At? then ofs % 32 == 0 && OnEntry(g, p, ofs / 32, a.pos) else ofs % 32 != 0 || !HasEntry(g, p, ofs / 32)
  }

  /** The answer to a step: from entry k of the directory to entry k + 1, or there is none. */
  ghost predicate SteppedTo(g: Geometry, fat: seq<nat>, sclust: Dword, was: DirPos, a: Arrival) {
    forall p, k: nat :: IsDirectory(g, fat, sclust, p) && OnEntry(g, p, k, was) ==>
      if a.At? then OnEntry(g, p, k + 1, a.pos) else a.End? && !HasEntry(g, p, k + 1)
  }

  /** Along a chain the bytes are followed cluster by cluster. */
  lemma {:induction false} FollowChainOf(fat: seq<nat>, csz: nat, p: seq<nat>, ofs: nat)
    requires csz > 0 && IsChain(fat, p)
    ensures Follow(fat, csz, p[0], ofs) == if ofs / csz < |p| then Place(p[ofs / csz], ofs % csz) else Nowhere
    decreases ofs
  {
    if ofs >= csz {
      OneBlockLess(ofs, csz);
      if |p| > 1 {
        assert fat[p[0]] == p[0 + 1];
        FollowChainOf(fat, csz, p[1..], ofs - csz);
      }
    } else {
      ModUnique(ofs, csz, 0, ofs);
    }
  }

  lemma OneBlockLess(n: nat, m: nat)
    requires 0 < m <= n
    ensures (n - m) / m == n / m - 1 && (n - m) % m == n % m && n / m > 0
  {
    var q, r := n / m, n % m;
    assert n == m * q + r;
    assert q > 0;
    assert m * (q - 1) == m * q - m;
    ModUnique(n - m, m, q - 1, r);
  }

  /** Setting the index k: entry k of the directory, or none. */
  lemma SdiInChain(g: Geometry, fat: seq<nat>, sclust: Dword, p: seq<nat>, ofs: nat)
    requires g.Valid() && |fat| == g.nFatent && IsDirectory(g, fat, sclust, p) && p != []
    ensures 0 < g.csize && 2 <= g.nFatent <= 0x1000_0000 && g.dirbase < 0x1_0000_0000
    ensures Sdi(g, fat, sclust, ofs).At? <==> ofs % 32 == 0 && HasEntry(g, p, ofs / 32)
    ensures Sdi(g, fat, sclust, ofs).At? ==> OnEntry(g, p, ofs / 32, Sdi(g, fat, sclust, ofs).pos)
  {
    hide Follow, Sectors, Clst2Sect, IsChain, PowerOfTwo;
    RootIsSomewhere(g, sclust);
    ChainAllocated(fat, p);
    assert p[0] in p;
    var csz, k := 512 * g.csize, ofs / 512;
    FollowChainOf(fat, csz, p, ofs);
    DivDivMod(ofs, g.csize);
    SectorsLength(g, p);
    BlockBound(k, g.csize, |p|);
    EntryOfByte(ofs);
    if k / g.csize < |p| {
      assert p[k / g.csize] in p;
      Clst2SectIsBase(g, p[k / g.csize]);
      SectorAt(g, p, k);
    }
  }

  lemma SdiInRoot(g: Geometry, fat: seq<nat>, sclust: Dword, ofs: nat)
    requires g.Valid() && |fat| == g.nFatent && StaticRoot(g, sclust)
    ensures 0 < g.csize && 2 <= g.nFatent <= 0x1000_0000 && g.dirbase < 0x1_0000_0000
    ensures Sdi(g, fat, sclust, ofs).At? <==> ofs % 32 == 0 && HasEntry(g, [], ofs / 32)
    ensures Sdi(g, fat, sclust, ofs).At? ==> OnEntry(g, [], ofs / 32, Sdi(g, fat, sclust, ofs).pos)
  {
    hide PowerOfTwo;
    EntryOfByte(ofs);
    WholeSectorCount(ofs / 32, g.nRootdir);
  }

  lemma WholeSectorCount(k: nat, n: nat)
    requires n % 16 == 0
    ensures k / 16 < n / 16 <==> k < n
  {
  }

  lemma SdiIsEntry(g: Geometry, fat: seq<nat>, sclust: Dword, p: seq<nat>, ofs: nat)
    requires g.Valid() && |fat| == g.nFatent && IsDirectory(g, fat, sclust, p)
    ensures 0 < g.csize && 2 <= g.nFatent <= 0x1000_0000 && g.dirbase < 0x1_0000_0000
    ensures Sdi(g, fat, sclust, ofs).At? <==> ofs % 32 == 0 && HasEntry(g, p, ofs / 32)
    ensures Sdi(g, fat, sclust, ofs).At? ==> OnEntry(g, p, ofs / 32, Sdi(g, fat, sclust, ofs).pos)
  {
    hide Sdi, HasEntry, OnEntry, Geometry.Valid;
    if p == [] {
      SdiInRoot(g, fat, sclust, ofs);
    } else {
      SdiInChain(g, fat, sclust, p, ofs);
    }
  }

  lemma EntryIsSdi(g: Geometry, fat: seq<nat>, sclust: Dword, p: seq<nat>, k: nat, pos: DirPos)
    requires g.Valid() && |fat| == g.nFatent && IsDirectory(g, fat, sclust, p) && OnEntry(g, p, k, pos)
    ensures 0 < g.csize && 2 <= g.nFatent <= 0x1000_0000 && g.dirbase < 0x1_0000_0000
    ensures Sdi(g, fat, sclust, 32 * k) == At(pos)
  {
    hide Sdi, DirSectors, PowerOfTwo, IsChain;
    SdiIsEntry(g, fat, sclust, p, 32 * k);
  }

  /** On a chain no step finds a damaged link. */
  lemma NextInDirectory(g: Geometry, fat: seq<nat>, sclust: Dword, p: seq<nat>, k: nat, pos: DirPos)
    requires g.Valid() && |fat| == g.nFatent && IsDirectory(g, fat, sclust, p) && OnEntry(g, p, k, pos)
    ensures 0 < g.csize && 2 <= g.nFatent <= 0x1000_0000 && !Next(g, fat, pos).Broken?
  {
    hide DirSectors, Clst2Sect, PowerOfTwo;
    if p != [] {
      ChainAllocated(fat, p);
      assert p[k / 16 / g.csize] in p;
    }
  }

  /** Stepping from entry k: entry k + 1, or the end; a chain is never found damaged. */
  lemma NextIsEntry(g: Geometry, fat: seq<nat>, sclust: Dword, p: seq<nat>, k: nat, pos: DirPos)
    requires g.Valid() && |fat| == g.nFatent && IsDirectory(g, fat, sclust, p) && OnEntry(g, p, k, pos)
    ensures 0 < g.csize && 2 <= g.nFatent <= 0x1000_0000
    ensures Next(g, fat, pos).At? ==> OnEntry(g, p, k + 1, Next(g, fat, pos).pos)
    ensures Next(g, fat, pos).End? <==> !HasEntry(g, p, k + 1)
    ensures !Next(g, fat, pos).Broken?
  {
    hide Sdi, Next, OnEntry, HasEntry, IsDirectory, Geometry.Valid;
    NextInDirectory(g, fat, sclust, p, k, pos);
    EntryIsSdi(g, fat, sclust, p, k, pos);
    SdiIsEntry(g, fat, sclust, p, 32 * (k + 1));
    EntryStep(k);
    StepIsSet(g, fat, sclust, 32 * k);
  }

  lemma EntryStep(k: nat)
    ensures 32 * (k + 1) == 32 * k + 32 && 32 * k % 32 == 0 && 32 * (k + 1) % 32 == 0 && 32 * (k + 1) / 32 == k + 1
  {
  }

  lemma EntryOfByte(ofs: nat)
    ensures ofs / 32 / 16 == ofs / 512 && ofs < MAX_DIR <==> ofs / 32 < 0x1_0000
    ensures ofs % 32 == 0 ==> ofs == 32 * (ofs / 32) && ofs % 512 == 32 * (ofs / 32 % 16)
  {
  }

  /** Bytes, sectors and clusters. */
  lemma DivDivMod(x: nat, c: nat)
    requires c > 0
    ensures x / (512 * c) == x / 512 / c && x % (512 * c) / 512 == x / 512 % c && x % (512 * c) % 512 == x % 512
  {
    var k, r := x / 512, x % 512;
    var q, a := k / c, k % c;
    assert x == 512 * k + r && k == c * q + a;
    assert 512 * (c * q) == 512 * c * q;
    ModUnique(x, 512 * c, q, 512 * a + r);
    ModUnique(512 * a + r, 512, a, r);
  }

  // ------------------------------------------------------------- the code

  lemma CursorGeometry(fs: FatFs)
    requires fs.Valid()
    ensures 0 < fs.g.csize && PowerOfTwo(fs.g.csize) && 2 <= fs.g.nFatent <= 0x1000_0000 && |fs.Fat()| == fs.g.nFatent
    ensures 0 < fs.g.database && 0 < fs.g.dirbase < 0x1_0000_0000 && fs.win.Length == 512
    ensures forall c: nat :: c < fs.g.nFatent ==> fs.Fat()[c] < 0x1000_0000
  {
    DiskBound(fs);
  }

  lemma SdiEverywhere(fs: FatFs, sclust: Dword, ofs: nat)
    requires fs.Valid()
    ensures 0 < fs.g.csize && 2 <= fs.g.nFatent <= 0x1000_0000 && fs.g.dirbase < 0x1_0000_0000
    ensures SetTo(fs.g, fs.Fat(), sclust, ofs, Sdi(fs.g, fs.Fat(), sclust, ofs))
  {
    hide FatFs.Fat, Sdi, IsDirectory, OnEntry, HasEntry, PowerOfTwo;
    CursorGeometry(fs);
    var a := Sdi(fs.g, fs.Fat(), sclust, ofs);
    forall p | IsDirectory(fs.g, fs.Fat(), sclust, p)
      ensures if a.At? then ofs % 32 == 0 && OnEntry(fs.g, p, ofs / 32, a.pos) else ofs % 32 != 0 || !HasEntry(fs.g, p, ofs / 32)
    {
      SdiIsEntry(fs.g, fs.Fat(), sclust, p, ofs);
    }
  }

  lemma NextEverywhere(fs: FatFs, sclust: Dword, pos: DirPos)
    requires fs.Valid()
    ensures 0 < fs.g.csize && 2 <= fs.g.nFatent <= 0x1000_0000
    ensures SteppedTo(fs.g, fs.Fat(), sclust, pos, Next(fs.g, fs.Fat(), pos))
  {
    hide FatFs.Fat, Next, IsDirectory, OnEntry, HasEntry, PowerOfTwo;
    CursorGeometry(fs);
    var a := Next(fs.g, fs.Fat(), pos);
    forall p, k: nat | IsDirectory(fs.g, fs.Fat(), sclust, p) && OnEntry(fs.g, p, k, pos)
      ensures if a.At? then OnEntry(fs.g, p, k + 1, a.pos) else a.End? && !HasEntry(fs.g, p, k + 1)
    {
      NextIsEntry(fs.g, fs.Fat(), sclust, p, k, pos);
    }
  }

  /** The cluster following loop of dir_sdi. */
  method FollowChain(fs: FatFs, start: Dword, ofs: Dword) returns (res: FResult, clst: Dword, rest: Dword)
    requires fs.Valid()
    modifies fs`disk, fs`wflag, fs`faults, fs`lostWrites, fs`winsect, fs.win
    ensures fs.Valid() && fs.Logical() == old(fs.Logical()) && fs.Fat() == old(fs.Fat())
    ensures 0 < fs.g.csize && old(fs.Log()).Onward(fs.Log())
    ensures res == Ok ==> Follow(fs.Fat(), 512 * fs.g.csize, start, ofs) == Place(clst, rest)
    ensures res == IntErr ==> Follow(fs.Fat(), 512 * fs.g.csize, start, ofs) == Nowhere
    ensures res == DiskErr ==> fs.faults > old(fs.faults)
    ensures res == Ok || res == IntErr || res == DiskErr
  {
    hide FatFs.FsInfoTold, FatFs.Valid, FatFs.Fat, FatFs.Logical, FatFs.Image, DataKept;
    CursorGeometry(fs);
    ghost var l, fat := fs.Logical(), fs.Fat();
    var csz := fs.g.csize * 512;
    clst, rest, res := start, ofs, Ok;
    while rest >= csz
      invariant fs.Valid() && fs.Logical() == l && fs.Fat() == fat && old(fs.Log()).Onward(fs.Log())
      invariant Follow(fat, 512 * fs.g.csize, clst, rest) == Follow(fat, 512 * fs.g.csize, start, ofs)
      invariant res == Ok
    {
      clst := GetFat(fs, clst);
      if clst == DISK_ERROR { return DiskErr, clst, rest; }
      if clst < 2 || clst >= fs.g.nFatent { return IntErr, clst, rest; }
      rest := rest - csz;
    }
  }

  method DirSdi(dp: Dir, ofs: Dword) returns (res: FResult)
    requires dp.fs.Valid()
    modifies dp, dp.fs`disk, dp.fs`wflag, dp.fs`faults, dp.fs`lostWrites, dp.fs`winsect, dp.fs.win
    ensures dp.fs.Valid() && dp.fs.Logical() == old(dp.fs.Logical()) && dp.fs.Fat() == old(dp.fs.Fat())
    ensures 0 < dp.fs.g.csize && 2 <= dp.fs.g.nFatent <= 0x1000_0000 && dp.fs.g.dirbase < 0x1_0000_0000
    ensures res == Ok ==> Sdi(dp.fs.g, dp.fs.Fat(), dp.sclust, ofs) == At(dp.Pos())
    ensures res == IntErr ==> Sdi(dp.fs.g, dp.fs.Fat(), dp.sclust, ofs) == Broken
    ensures res == DiskErr ==> dp.fs.faults > old(dp.fs.faults) && !StaticRoot(dp.fs.g, dp.sclust)
    ensures res == Ok || res == IntErr || res == DiskErr
    // on entry ofs / 32 of the directory, or there is none
    ensures res != DiskErr ==> SetTo(dp.fs.g, dp.fs.Fat(), dp.sclust, ofs, if res == Ok then At(dp.Pos()) else Broken)
  {
    hide FatFs.FsInfoTold, FatFs.Valid, FatFs.Fat, FatFs.Logical, FatFs.Image, Follow, Clst2Sect;
    CursorGeometry(dp.fs);
    SdiEverywhere(dp.fs, dp.sclust, ofs);
    hide SetTo;
    if ofs >= MAX_DIR || ofs % SZDIRE != 0 { return IntErr; }
    dp.dptr := ofs;
    var clst := dp.sclust;
    if clst == 0 && dp.fs.g.fsType == Fat32 {
      clst := dp.fs.g.dirbase;
    }
    var rest := ofs;
    if clst == 0 {
      if ofs / SZDIRE >= dp.fs.g.nRootdir { return IntErr; }
      dp.sect := dp.fs.g.dirbase;
    } else {
      res, clst, rest := FollowChain(dp.fs, clst, ofs);
      if res != Ok { return; }
      Clst2SectIsBase(dp.fs.g, clst);
      dp.sect := Clst2Sect(dp.fs.g, clst);
    }
    dp.clust := clst;
    if dp.sect == 0 { return IntErr; }
    dp.sect := dp.sect + rest / 512;
    dp.ofs := rest % 512;
    res := Ok;
  }

  method DirNext(dp: Dir) returns (res: FResult)
    requires dp.fs.Valid()
    modifies dp, dp.fs`disk, dp.fs`wflag, dp.fs`faults, dp.fs`lostWrites, dp.fs`winsect, dp.fs.win
    ensures dp.fs.Valid() && dp.fs.Logical() == old(dp.fs.Logical()) && dp.fs.Fat() == old(dp.fs.Fat())
    ensures 0 < dp.fs.g.csize && 2 <= dp.fs.g.nFatent <= 0x1000_0000
    ensures res == Ok ==> Next(dp.fs.g, dp.fs.Fat(), old(dp.Pos())) == At(dp.Pos())
    ensures res == NoFile ==> Next(dp.fs.g, dp.fs.Fat(), old(dp.Pos())) == End && dp.sect == 0
    ensures res == IntErr ==> Next(dp.fs.g, dp.fs.Fat(), old(dp.Pos())) == Broken
    ensures res == DiskErr ==> dp.fs.faults > old(dp.fs.faults) && old(dp.clust) != 0
    // from entry k of a directory to entry k + 1, or there is none
    ensures res != DiskErr ==> SteppedTo(dp.fs.g, dp.fs.Fat(), dp.sclust, old(dp.Pos()),
                                         if res == Ok then At(dp.Pos()) else if res == NoFile then End else Broken)
    ensures res == Ok || res == NoFile || res == IntErr || res == DiskErr
  {
    hide FatFs.FsInfoTold, FatFs.Valid, FatFs.Fat, FatFs.Logical, FatFs.Image, Clst2Sect, PowerOfTwo, And, DataKept;
    CursorGeometry(dp.fs);
    NextEverywhere(dp.fs, dp.sclust, dp.Pos());
    hide SteppedTo;
    var ofs := dp.dptr + SZDIRE;
    if ofs >= MAX_DIR { dp.sect := 0; }
    if dp.sect == 0 { return NoFile; }
    if ofs % 512 == 0 {
      dp.sect := dp.sect + 1;
      if dp.clust == 0 {
        if ofs / SZDIRE >= dp.fs.g.nRootdir {
          dp.sect := 0;
          return NoFile;
        }
      } else {
        MaskIsMod(ofs / 512, dp.fs.g.csize);
        if And(ofs / 512, dp.fs.g.csize - 1) == 0 {
          var clst := GetFat(dp.fs, dp.clust);
          if clst <= 1 { return IntErr; }
          if clst == DISK_ERROR { return DiskErr; }
          if clst >= dp.fs.g.nFatent {
            dp.sect := 0;
            return NoFile;
          }
          Clst2SectIsBase(dp.fs.g, clst);
          dp.clust := clst;
          dp.sect := Clst2Sect(dp.fs.g, clst);
        }
      }
    }
    dp.dptr := ofs;
    dp.ofs := ofs % 512;
    res := Ok;
  }
}
