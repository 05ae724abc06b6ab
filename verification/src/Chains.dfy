/**
 The FAT as a plain array of links: cluster chains, the forest they form, the free count,
 and what allocating and removing clusters does to them.
 */
module Chains {

  /** p is the whole chain from p[0]: linked clusters, the last of them marked as an end. */
  ghost predicate IsChain(fat: seq<nat>, p: seq<nat>) {
    && |p| > 0
    && (forall i :: 0 <= i < |p| ==> 2 <= p[i] < |fat|)
    && (forall i :: 0 <= i < |p| - 1 ==> fat[p[i]] == p[i + 1])
    && fat[p[|p| - 1]] >= |fat|
  }

  /** A chain never meets itself. */
  lemma {:induction false} NoRepeat(fat: seq<nat>, p: seq<nat>, i: nat, j: nat)
    requires IsChain(fat, p) && i < j < |p|
    ensures p[i] != p[j]
    decreases |p| - j
  {
    assert fat[p[i]] == p[i + 1] < |fat|;
    if p[i] == p[j] && j < |p| - 1 {
      assert p[i + 1] == fat[p[i]] == p[j + 1];
      NoRepeat(fat, p, i + 1, j + 1);
    }
  }

  /** Two chains from the same cluster are the same chain. */
  lemma {:induction false} SameHeadSameChain(fat: seq<nat>, p: seq<nat>, q: seq<nat>)
    requires IsChain(fat, p) && IsChain(fat, q) && p[0] == q[0]
    ensures p == q
    decreases |p|
  {
    assert |p| > 1 ==> fat[p[0]] == p[0 + 1];
    assert |q| > 1 ==> fat[q[0]] == q[0 + 1];
    assert |p| > 1 <==> |q| > 1;
    if |p| > 1 {
      SameHeadSameChain(fat, p[1..], q[1..]);
      assert p == [p[0]] + p[1..] && q == [q[0]] + q[1..];
    }
  }

  ghost predicate Disjoint(p: seq<nat>, q: seq<nat>) {
    forall c :: c in p ==> c !in q
  }

  ghost predicate Covered(cs: set<seq<nat>>, c: nat) {
    exists p :: p in cs && c in p
  }

  /** Every allocated cluster lies on exactly one of the chains cs. */
  ghost predicate Forest(fat: seq<nat>, cs: set<seq<nat>>) {
    && (forall p :: p in cs ==> IsChain(fat, p))
    && (forall p, q :: p in cs && q in cs && p != q ==> Disjoint(p, q))
    && (forall c {:trigger Covered(cs, c)} :: 2 <= c < |fat| && fat[c] != 0 ==> Covered(cs, c))
  }

  lemma ChainEntriesNonzero(fat: seq<nat>, q: seq<nat>, c: nat)
    requires IsChain(fat, q) && c in q
    ensures 2 <= c < |fat| && fat[c] >= 2
  {
    var i :| 0 <= i < |q| && q[i] == c;
    assert i < |q| - 1 ==> fat[q[i]] == q[i + 1];
  }

  lemma ChainAllocated(fat: seq<nat>, q: seq<nat>)
    requires IsChain(fat, q)
    ensures |q| > 0
    ensures forall c :: c in q ==> 2 <= c < |fat| && fat[c] >= 2
  {
    forall c | c in q ensures 2 <= c < |fat| && fat[c] >= 2 {
      ChainEntriesNonzero(fat, q, c);
    }
  }

  /** One chain of the forest gives way to the chain p', or to none; the rest survive. */
  lemma ReplaceChain(fat: seq<nat>, f: seq<nat>, cs: set<seq<nat>>, p: seq<nat>, p': seq<nat>)
    requires Forest(fat, cs) && p in cs && |f| == |fat|
    requires p' != [] ==> IsChain(f, p')
    requires forall q :: q in cs && q != p ==> IsChain(f, q)
    requires forall c :: c in p' ==> c in p || (c < |fat| && fat[c] == 0)
    requires forall c :: 2 <= c < |fat| && f[c] != 0 ==> c in p' || (fat[c] != 0 && c !in p)
    ensures Forest(f, cs - {p} + (if p' == [] then {} else {p'}))
  {
    hide IsChain;
    var cs' := cs - {p} + (if p' == [] then {} else {p'});
    forall q, c | q in cs && q != p && c in p' ensures c !in q {
      assert Disjoint(q, p);
      if c in q {
        ChainEntriesNonzero(fat, q, c);
      }
    }
    forall c | 2 <= c < |f| && f[c] != 0 ensures Covered(cs', c) {
      if c in p' {
        assert p' in cs';
      } else {
        assert Covered(cs, c);
        var q :| q in cs && c in q;
        assert q in cs';
      }
    }
  }

  // ------------------------------------------------------------- appending

  /** create_chain's change of the table: ncl becomes the end, linked from clst unless that is 0. */
  ghost function Appended(fat: seq<nat>, clst: nat, ncl: nat, eoc: nat): (fat': seq<nat>)
    requires 2 <= ncl < |fat| && (clst == 0 || 2 <= clst < |fat|)
    ensures |fat'| == |fat|
  {
    var f := fat[ncl := eoc];
    if clst == 0 then f else f[clst := ncl]
  }

  lemma {:induction false} AppendToChain(fat: seq<nat>, p: seq<nat>, ncl: nat, eoc: nat)
    requires IsChain(fat, p) && 2 <= ncl < |fat| && fat[ncl] == 0 && eoc >= |fat|
    ensures IsChain(Appended(fat, p[|p| - 1], ncl, eoc), p + [ncl])
  {
    var last := p[|p| - 1];
    var q := p + [ncl];
    var f := Appended(fat, last, ncl, eoc);
    forall i | 0 <= i < |q| - 1 ensures f[q[i]] == q[i + 1] {
      if i < |p| - 1 {
        NoRepeat(fat, p, i, |p| - 1);
        assert fat[p[i]] == p[i + 1];
      }
    }
  }

  lemma OtherChainsSurviveAppend(fat: seq<nat>, q: seq<nat>, clst: nat, ncl: nat, eoc: nat)
    requires IsChain(fat, q) && 2 <= ncl < |fat| && fat[ncl] == 0
    requires clst == 0 || (2 <= clst < |fat| && clst !in q)
    ensures IsChain(Appended(fat, clst, ncl, eoc), q)
  {
    forall i | 0 <= i < |q| ensures fat[q[i]] != 0 {
      ChainEntriesNonzero(fat, q, q[i]);
    }
  }

  /** A new cluster on an old chain: that chain grows by one, all others stay. */
  lemma AppendForest(fat: seq<nat>, cs: set<seq<nat>>, p: seq<nat>, ncl: nat, eoc: nat)
    requires Forest(fat, cs) && p in cs
    requires 2 <= ncl < |fat| && fat[ncl] == 0 && eoc >= |fat|
    ensures p[|p| - 1] in p
    ensures Forest(Appended(fat, p[|p| - 1], ncl, eoc), cs - {p} + {p + [ncl]})
  {
    hide IsChain, Covered;
    ChainAllocated(fat, p);
    var last := p[|p| - 1];
    assert last in p;
    var f := Appended(fat, last, ncl, eoc);
    AppendToChain(fat, p, ncl, eoc);
    forall q | q in cs && q != p ensures IsChain(f, q) {
      assert Disjoint(p, q) && last in p;
      OtherChainsSurviveAppend(fat, q, last, ncl, eoc);
    }
    assert ncl in p + [ncl];
    ReplaceChain(fat, f, cs, p, p + [ncl]);
  }

  /** A new chain of one cluster. */
  lemma NewChainForest(fat: seq<nat>, cs: set<seq<nat>>, ncl: nat, eoc: nat)
    requires Forest(fat, cs)
    requires 2 <= ncl < |fat| && fat[ncl] == 0 && eoc >= |fat|
    ensures Forest(Appended(fat, 0, ncl, eoc), cs + {[ncl]})
  {
    var f := Appended(fat, 0, ncl, eoc);
    forall q | q in cs ensures IsChain(f, q) && ncl !in q {
      if ncl in q {
        ChainEntriesNonzero(fat, q, ncl);
      }
      OtherChainsSurviveAppend(fat, q, 0, ncl, eoc);
    }
    forall c | 2 <= c < |f| && f[c] != 0 ensures Covered(cs + {[ncl]}, c) {
      if c == ncl {
        assert c in [ncl];
      } else {
        assert Covered(cs, c);
        var q :| q in cs && c in q;
      }
    }
  }

  // ------------------------------------------------------------- removing

  function NonZero(fat: seq<nat>): nat {
    if fat == [] then 0 else (if fat[0] == 0 then 0 else 1) + NonZero(fat[1..])
  }

  lemma {:induction false} NonZeroUpdate(fat: seq<nat>, c: nat)
    requires c < |fat| && fat[c] != 0
    ensures NonZero(fat[c := 0]) == NonZero(fat) - 1
  {
    if c > 0 {
      NonZeroUpdate(fat[1..], c - 1);
      assert fat[c := 0][1..] == fat[1..][c - 1 := 0];
    }
  }

  /** How a removal ends: at a free or an end mark, or at the reserved value 1. */
  datatype Removal = Removed(fat: seq<nat>) | Corrupt(fat: seq<nat>)

  /** remove_chain's loop, on any table at all: cyclic, cross-linked or damaged. */
  function Unlink(fat: seq<nat>, c: nat): (r: Removal)
    requires 2 <= c < |fat|
    ensures |r.fat| == |fat|
    decreases NonZero(fat)
  {
    var nxt := fat[c];
    if nxt == 0 then Removed(fat)
    else if nxt == 1 then Corrupt(fat)
    else
      NonZeroUpdate(fat, c);
      if nxt < |fat| then Unlink(fat[c := 0], nxt) else Removed(fat[c := 0])
  }

  /** The table with every cluster of p free. */
  ghost function Freed(fat: seq<nat>, p: seq<nat>): (fat': seq<nat>)
    ensures |fat'| == |fat|
  {
    seq(|fat|, c requires 0 <= c < |fat| => if c in p then 0 else fat[c])
  }

  /** On a proper chain the loop frees exactly that chain. */
  lemma {:induction false} UnlinkChain(fat: seq<nat>, p: seq<nat>)
    requires IsChain(fat, p)
    ensures Unlink(fat, p[0]) == Removed(Freed(fat, p))
    decreases |p|
  {
    var f := fat[p[0] := 0];
    if |p| == 1 {
      assert f == Freed(fat, p);
    } else {
      var q := p[1..];
      assert fat[p[0]] == p[1];
      forall i | 0 <= i < |q| ensures q[i] != p[0] {
        NoRepeat(fat, p, 0, i + 1);
      }
      assert IsChain(f, q);
      UnlinkChain(f, q);
      assert Freed(f, q) == Freed(fat, p) by {
        assert p == [p[0]] + q;
      }
    }
  }

  /** remove_chain's change of the table when a chain is cut before position k. */
  ghost function Cut(fat: seq<nat>, p: seq<nat>, k: nat, eoc: nat): (fat': seq<nat>)
    requires IsChain(fat, p) && k < |p|
    ensures |fat'| == |fat|
  {
    Freed(if k == 0 then fat else fat[p[k - 1] := eoc], p[k..])
  }

  lemma SuffixIsChain(fat: seq<nat>, p: seq<nat>, k: nat, eoc: nat)
    requires IsChain(fat, p) && k < |p|
    ensures IsChain(if k == 0 then fat else fat[p[k - 1] := eoc], p[k..])
  {
    if k > 0 {
      forall i | k <= i < |p| ensures p[i] != p[k - 1] {
        NoRepeat(fat, p, k - 1, i);
      }
    }
  }

  lemma CutKeepsPrefix(fat: seq<nat>, p: seq<nat>, k: nat, eoc: nat)
    requires IsChain(fat, p) && 0 < k < |p| && eoc >= |fat|
    ensures IsChain(Cut(fat, p, k, eoc), p[..k])
  {
    var f := Cut(fat, p, k, eoc);
    forall i | 0 <= i < k ensures p[i] !in p[k..] && (i < k - 1 ==> p[i] != p[k - 1]) {
      if p[i] in p[k..] {
        var j :| k <= j < |p| && p[j] == p[i];
        NoRepeat(fat, p, i, j);
      }
      if i < k - 1 {
        NoRepeat(fat, p, i, k - 1);
      }
    }
  }

  lemma OtherChainsSurviveCut(fat: seq<nat>, p: seq<nat>, k: nat, eoc: nat, q: seq<nat>)
    requires IsChain(fat, p) && k < |p| && IsChain(fat, q) && Disjoint(q, p)
    ensures IsChain(Cut(fat, p, k, eoc), q)
  {
    forall i | 0 <= i < |q| ensures q[i] !in p {
    }
    forall c | c in p[k..] ensures c in p {
    }
  }

  /** The chain keeps its first k clusters, the rest become free, all other chains stay. */
  lemma CutForest(fat: seq<nat>, cs: set<seq<nat>>, p: seq<nat>, k: nat, eoc: nat)
    requires Forest(fat, cs) && p in cs && k < |p| && eoc >= |fat|
    ensures Forest(Cut(fat, p, k, eoc), cs - {p} + (if k == 0 then {} else {p[..k]}))
    ensures forall c :: c in p[k..] ==> 0 <= c < |fat| && Cut(fat, p, k, eoc)[c] == 0
  {
    hide IsChain, Covered;
    var f := Cut(fat, p, k, eoc);
    assert p == p[..k] + p[k..];
    ChainAllocated(fat, p);
    assert forall c :: c in p[k..] ==> c in p;
    forall q | q in cs && q != p ensures IsChain(f, q) {
      OtherChainsSurviveCut(fat, p, k, eoc, q);
    }
    if k > 0 {
      CutKeepsPrefix(fat, p, k, eoc);
    }
    assert k == 0 ==> p[..k] == [];
    ReplaceChain(fat, f, cs, p, p[..k]);
  }

  // ------------------------------------------------------------- counting

  /** Free clusters among the first k entries; entries 0 and 1 are reserved. */
  function FreeBelow(fat: seq<nat>, k: nat): nat
    requires k <= |fat|
  {
    if k <= 2 then 0 else FreeBelow(fat, k - 1) + (if fat[k - 1] == 0 then 1 else 0)
  }

  function FreeCount(fat: seq<nat>): nat {
    FreeBelow(fat, |fat|)
  }

  lemma {:induction false} FreeBelowUpdate(fat: seq<nat>, k: nat, c: nat, v: nat)
    requires k <= |fat| && 2 <= c < |fat|
    ensures FreeBelow(fat[c := v], k) ==
            FreeBelow(fat, k) - (if c < k && fat[c] == 0 then 1 else 0) + (if c < k && v == 0 then 1 else 0)
  {
    if k > 2 {
      FreeBelowUpdate(fat, k - 1, c, v);
    }
  }

  lemma {:induction false} FreeBelowBound(fat: seq<nat>, k: nat)
    requires k <= |fat|
    ensures FreeBelow(fat, k) <= if k <= 2 then 0 else k - 2
    ensures (exists c :: 2 <= c < k && fat[c] != 0) ==> FreeBelow(fat, k) < k - 2
    ensures FreeBelow(fat, k) == 0 <==> forall c :: 2 <= c < k ==> fat[c] != 0
  {
    if k > 2 {
      FreeBelowBound(fat, k - 1);
    }
  }

  // ------------------------------------------------------------- searching

  /** The first entry in [lo, hi) that ends a search: free (0) or damaged (1). */
  function FirstStop(fat: seq<nat>, lo: nat, hi: nat): (c: nat)
    requires lo <= hi <= |fat|
    ensures lo <= c <= hi
    ensures forall d :: lo <= d < c ==> fat[d] > 1
    ensures c < hi ==> fat[c] <= 1
    decreases hi - lo
  {
    if lo == hi || fat[lo] <= 1 then lo else FirstStop(fat, lo + 1, hi)
  }

  /** What a search that stopped at entry c reports. */
  function Verdict(fat: seq<nat>, c: nat): nat
    requires c < |fat|
  {
    if fat[c] == 0 then c else 1
  }

  /** The cyclic next-fit search: after scl to the end, then from 2 up to scl itself. */
  function Search(fat: seq<nat>, scl: nat): nat
    requires 1 <= scl < |fat|
  {
    var a := FirstStop(fat, scl + 1, |fat|);
    if a < |fat| then Verdict(fat, a)
    else if scl == 1 then 0
    else
      var b := FirstStop(fat, 2, scl + 1);
      if b <= scl then Verdict(fat, b) else 0
  }

  /** create_chain's choice: the following cluster, else the search from the hint. 0: none, 1: damaged FAT. */
  function Pick(fat: seq<nat>, clst: nat, hint: nat): nat
    requires |fat| >= 3 && (clst == 0 || 2 <= clst < |fat|)
  {
    if clst == 0 then
      Search(fat, if hint == 0 || hint >= |fat| then 1 else hint)
    else
      var next := if clst + 1 >= |fat| then 2 else clst + 1;
      if fat[next] <= 1 then Verdict(fat, next)
      else Search(fat, if 2 <= hint < |fat| then hint else clst)
  }

  /** The search is sound and complete for every hint, valid or not. */
  lemma SearchComplete(fat: seq<nat>, scl: nat)
    requires 1 <= scl < |fat|
    ensures Search(fat, scl) >= 2 ==> Search(fat, scl) < |fat| && fat[Search(fat, scl)] == 0
    ensures Search(fat, scl) == 0 <==> forall c :: 2 <= c < |fat| ==> fat[c] > 1
    ensures Search(fat, scl) == 1 ==> exists c :: 2 <= c < |fat| && fat[c] == 1
  {
    var a := FirstStop(fat, scl + 1, |fat|);
    var b := if scl == 1 then 2 else FirstStop(fat, 2, scl + 1);
  }

  lemma PickComplete(fat: seq<nat>, clst: nat, hint: nat)
    requires |fat| >= 3 && (clst == 0 || 2 <= clst < |fat|)
    ensures Pick(fat, clst, hint) >= 2 ==> Pick(fat, clst, hint) < |fat| && fat[Pick(fat, clst, hint)] == 0
    ensures Pick(fat, clst, hint) == 0 <==> forall c :: 2 <= c < |fat| ==> fat[c] > 1
    ensures Pick(fat, clst, hint) == 1 ==> exists c :: 2 <= c < |fat| && fat[c] == 1
  {
    hide Search;
    SearchComplete(fat, if clst == 0 then (if hint == 0 || hint >= |fat| then 1 else hint)
                        else if 2 <= hint < |fat| then hint else clst);
  }

  /** How far the cyclic search gets before it looks at c: 1 for the cluster after scl, the whole round for scl itself. */
  function Ahead(fat: seq<nat>, scl: nat, c: nat): int {
    if c > scl then c - scl else c - scl + |fat| - 2
  }

  /** c ends a search from scl: every cluster that comes before it is in use. */
  ghost predicate Nearest(fat: seq<nat>, scl: nat, c: nat) {
    2 <= c < |fat| && fat[c] <= 1 && forall d :: 2 <= d < |fat| && Ahead(fat, scl, d) < Ahead(fat, scl, c) ==> fat[d] > 1
  }

  /** The answer is the first free cluster in cyclic order behind scl, unless a damaged entry comes first. */
  lemma SearchNearest(fat: seq<nat>, scl: nat)
    requires 1 <= scl < |fat|
    ensures Search(fat, scl) >= 2 ==> Nearest(fat, scl, Search(fat, scl)) && fat[Search(fat, scl)] == 0
    ensures Search(fat, scl) == 1 ==> exists c: nat :: Nearest(fat, scl, c) && fat[c] == 1
  {
    var a := FirstStop(fat, scl + 1, |fat|);
    if a < |fat| {
      assert Nearest(fat, scl, a);
    } else if scl > 1 {
      var b := FirstStop(fat, 2, scl + 1);
      if b <= scl { assert Nearest(fat, scl, b); }
    }
  }

  function Following(fat: seq<nat>, c: nat): nat {
    if c + 1 < |fat| then c + 1 else 2
  }

  /** A chain goes on with the cluster that follows its end, if that is free; else the search is from the hint, if that is a cluster. */
  lemma PickNearest(fat: seq<nat>, clst: nat, hint: nat)
    requires |fat| >= 3 && (clst == 0 || 2 <= clst < |fat|)
    ensures clst != 0 && fat[Following(fat, clst)] == 0 ==> Pick(fat, clst, hint) == Following(fat, clst)
    ensures clst != 0 && fat[Following(fat, clst)] == 1 ==> Pick(fat, clst, hint) == 1
    ensures clst == 0 || fat[Following(fat, clst)] > 1 ==>
              var v, from := Pick(fat, clst, hint), if 2 <= hint < |fat| then hint else if clst == 0 then 1 else clst;
              (v >= 2 ==> Nearest(fat, from, v) && fat[v] == 0) && (v == 1 ==> exists c: nat :: Nearest(fat, from, c) && fat[c] == 1)
  {
    hide Search;
    SearchNearest(fat, if 2 <= hint < |fat| then hint else if clst == 0 then 1 else clst);
  }
}
