/**
 Where a file's bytes are: a cluster chain as a list of sectors, and the byte string
 those sectors hold once the file's own dirty sector buffer is laid over them.
 */
module Layout {
  import opened Bytes
  import opened Volume
  import opened Chains

  /** n consecutive sectors from base. */
  function Consecutive(base: nat, n: nat): (r: seq<nat>)
    ensures |r| == n
    ensures forall j :: 0 <= j < n ==> r[j] == base + j
  {
    if n == 0 then [] else Consecutive(base, n - 1) + [base + n - 1]
  }

  /** The sectors of cluster c. */
  function Run(g: Geometry, c: nat): (r: seq<nat>)
    ensures |r| == g.csize
    ensures forall j :: 0 <= j < g.csize ==> r[j] == g.ClusterBase(c) + j
  {
    Consecutive(g.ClusterBase(c), g.csize)
  }

  /** The sectors of a chain, in file order. */
  function Sectors(g: Geometry, chain: seq<nat>): seq<nat> {
    if chain == [] then [] else Sectors(g, chain[..|chain| - 1]) + Run(g, chain[|chain| - 1])
  }

  // ------------------------------------------------------------- arithmetic of cluster and sector indices

  /** Adding within the block of m that k lies in. */
  lemma SameBlock(k: nat, j: nat, m: nat)
    requires m > 0 && k % m + j < m
    ensures (k + j) / m == k / m && (k + j) % m == k % m + j
  {
    ModUnique(k + j, m, k / m, k % m + j);
  }

  /** The predecessor of a block's first element is in the block before. */
  lemma BlockBefore(k: nat, m: nat)
    requires m > 0 && k > 0 && k % m == 0
    ensures k / m > 0 && (k - 1) / m == k / m - 1
  {
    var q := k / m;
    assert k == m * q;
    assert q > 0;
    assert m * (q - 1) == m * q - m;
    ModUnique(k - 1, m, q - 1, m - 1);
  }

  lemma SameBlockBefore(k: nat, m: nat)
    requires m > 0 && k % m != 0
    ensures (k - 1) / m == k / m
  {
    ModUnique(k - 1, m, k / m, k % m - 1);
  }

  lemma BlockBound(k: nat, m: nat, n: nat)
    requires m > 0
    ensures k < n * m <==> k / m < n
  {
    var q, r := k / m, k % m;
    assert k == m * q + r;
    if q < n {
      MulMono(m, q + 1, n);
      assert m * (q + 1) == m * q + m;
    } else {
      MulMono(m, n, q);
    }
  }

  lemma MulMono(m: nat, a: nat, b: nat)
    requires a <= b
    ensures m * a <= m * b
  {
  }

  // ------------------------------------------------------------- chains as sectors

  lemma {:induction false} SectorsLength(g: Geometry, chain: seq<nat>)
    ensures |Sectors(g, chain)| == |chain| * g.csize
  {
    if chain != [] {
      SectorsLength(g, chain[..|chain| - 1]);
      assert (|chain| - 1) * g.csize + g.csize == |chain| * g.csize;
    }
  }

  /** Sector k of a chain is sector a of its q-th cluster. */
  lemma {:induction false} Locate(g: Geometry, chain: seq<nat>, k: nat) returns (q: nat, a: nat)
    requires k < |Sectors(g, chain)|
    ensures q < |chain| && a < g.csize && k == g.csize * q + a
    ensures Sectors(g, chain)[k] == g.ClusterBase(chain[q]) + a
  {
    var front := chain[..|chain| - 1];
    if k < |Sectors(g, front)| {
      q, a := Locate(g, front, k);
    } else {
      SectorsLength(g, front);
      q, a := |chain| - 1, k - |Sectors(g, front)|;
      assert g.csize * q == q * g.csize;
    }
  }

  lemma SectorAt(g: Geometry, chain: seq<nat>, k: nat)
    requires g.csize > 0 && k < |Sectors(g, chain)|
    ensures k / g.csize < |chain|
    ensures Sectors(g, chain)[k] == g.ClusterBase(chain[k / g.csize]) + k % g.csize
  {
    var q, a := Locate(g, chain, k);
    ModUnique(k, g.csize, q, a);
  }

  lemma {:induction false} SectorsPrefix(g: Geometry, chain: seq<nat>, m: nat)
    requires m <= |chain|
    ensures |Sectors(g, chain[..m])| <= |Sectors(g, chain)|
    ensures Sectors(g, chain[..m]) == Sectors(g, chain)[..|Sectors(g, chain[..m])|]
  {
    if m < |chain| {
      var front := chain[..|chain| - 1];
      SectorsPrefix(g, front, m);
      assert front[..m] == chain[..m];
    } else {
      assert chain[..m] == chain;
    }
  }

  ghost predicate Distinct(s: seq<nat>) {
    forall i, j :: 0 <= i < j < |s| ==> s[i] != s[j]
  }

  ghost predicate Between(s: seq<nat>, lo: nat, hi: nat) {
    forall k :: 0 <= k < |s| ==> lo <= s[k] < hi
  }

  /** Sectors of different clusters differ. */
  lemma ClusterOfSector(g: Geometry, c: nat, i: nat, d: nat, j: nat)
    requires 2 <= c && 2 <= d && i < g.csize && j < g.csize
    requires g.ClusterBase(c) + i == g.ClusterBase(d) + j
    ensures c == d && i == j
  {
    if c < d {
      ClustersAscend(g, c, d);
    } else if d < c {
      ClustersAscend(g, d, c);
    }
  }

  lemma DifferentSectors(g: Geometry, fat: seq<nat>, chain: seq<nat>, i: nat, j: nat)
    requires IsChain(fat, chain) && i < j < |Sectors(g, chain)|
    ensures Sectors(g, chain)[i] != Sectors(g, chain)[j]
  {
    hide IsChain, Sectors;
    var q, a := Locate(g, chain, i);
    var r, b := Locate(g, chain, j);
    ChainAllocated(fat, chain);
    assert chain[q] in chain && chain[r] in chain;
    if Sectors(g, chain)[i] == Sectors(g, chain)[j] {
      ClusterOfSector(g, chain[q], a, chain[r], b);
      if q < r {
        NoRepeat(fat, chain, q, r);
      } else if r < q {
        NoRepeat(fat, chain, r, q);
      }
    }
  }

  /** The sectors of a chain are distinct and lie in the data area. */
  lemma ChainSectors(g: Geometry, fat: seq<nat>, chain: seq<nat>)
    requires g.csize > 0 && |fat| == g.nFatent && (chain != [] ==> IsChain(fat, chain))
    ensures Distinct(Sectors(g, chain))
    ensures Between(Sectors(g, chain), g.database, g.ClusterBase(g.nFatent))
  {
    hide IsChain, Sectors;
    var s := Sectors(g, chain);
    SectorsLength(g, chain);
    forall k | 0 <= k < |s| ensures g.database <= s[k] < g.ClusterBase(g.nFatent) {
      var q, a := Locate(g, chain, k);
      ChainAllocated(fat, chain);
      assert chain[q] in chain;
      ClustersAscend(g, chain[q], g.nFatent);
    }
    forall i, j | 0 <= i < j < |s| ensures s[i] != s[j] {
      DifferentSectors(g, fat, chain, i, j);
    }
  }

  /** A sector outside every cluster of the chain is not among its sectors. */
  lemma NotAmongSectors(g: Geometry, chain: seq<nat>, s: nat)
    requires forall i :: 0 <= i < |chain| ==> s !in Run(g, chain[i])
    ensures s !in Sectors(g, chain)
  {
    hide Sectors;
    forall k | 0 <= k < |Sectors(g, chain)| ensures Sectors(g, chain)[k] != s {
      var q, a := Locate(g, chain, k);
      assert Run(g, chain[q])[a] == Sectors(g, chain)[k];
    }
  }

  lemma AmongSectors(g: Geometry, chain: seq<nat>, q: nat, s: nat)
    requires q < |chain| && s in Run(g, chain[q])
    ensures s in Sectors(g, chain)
  {
    var front, run := chain[..q + 1], Run(g, chain[q]);
    assert front[..q] == chain[..q] && front[q] == chain[q];
    assert Sectors(g, front) == Sectors(g, chain[..q]) + run;
    assert s in Sectors(g, front);
    hide Sectors, Run;
    SectorsPrefix(g, chain, q + 1);
  }

  // ------------------------------------------------------------- file contents

  /** The first n bytes of a file on sectors secs, with the dirty buffer over its sector. */
  ghost function Content(disk: seq<Sector>, secs: seq<nat>, dirty: bool, sect: nat, buf: Sector, n: nat): (b: seq<Byte>)
    requires n <= 512 * |secs| && Between(secs, 0, |disk|)
    ensures |b| == n
  {
    seq(n, i requires 0 <= i < n => SectorView(disk, secs[i / 512], dirty, sect, buf)[i % 512])
  }

  ghost function SectorView(disk: seq<Sector>, s: nat, dirty: bool, sect: nat, buf: Sector): Sector
    requires s < |disk|
  {
    if dirty && s == sect then buf else disk[s]
  }

  /** The content depends only on what the file's sectors show. */
  lemma SameView(disk: seq<Sector>, secs: seq<nat>, dirty: bool, sect: nat, buf: Sector,
                 disk': seq<Sector>, secs': seq<nat>, dirty': bool, sect': nat, buf': Sector, n: nat)
    requires n <= 512 * |secs| && n <= 512 * |secs'| && Between(secs, 0, |disk|) && Between(secs', 0, |disk'|)
    requires forall k :: 0 <= k < (n + 511) / 512 ==>
               SectorView(disk', secs'[k], dirty', sect', buf') == SectorView(disk, secs[k], dirty, sect, buf)
    ensures Content(disk', secs', dirty', sect', buf', n) == Content(disk, secs, dirty, sect, buf, n)
  {
    var a, b := Content(disk, secs, dirty, sect, buf, n), Content(disk', secs', dirty', sect', buf', n);
    forall i | 0 <= i < n ensures a[i] == b[i] {
      assert 0 <= i / 512 < (n + 511) / 512;
    }
  }
}
