/**
 Whole runs of create_chain and remove_chain over one volume, with the arguments the file and
 directory layers pass: the table stays a forest of disjoint chains on which every allocated
 cluster lies, even when device errors break calls off between two entries.
 */
module FatRuns {
  import opened Bytes
  import opened Volume
  import opened Chains
  import opened Allocation

  /** A call of create_chain(clst) that returned val, or of remove_chain(clst, pclst). */
  datatype Call = Create(clst: nat, val: nat) | Remove(clst: nat, pclst: nat)

  /** No cluster links to h. */
  ghost predicate Head(fat: seq<nat>, h: nat) {
    forall c :: 2 <= c < |fat| ==> fat[c] != h
  }

  /** The arguments the callers pass, judged on the table alone. */
  ghost predicate Proper(fat: seq<nat>, call: Call) {
    match call
    case Create(clst, val) => clst == 0 || (2 <= clst < |fat| && fat[clst] != 0)
    case Remove(clst, pclst) =>
      && 2 <= clst < |fat| && fat[clst] != 0
      // behind its predecessor, or a whole chain from its head
      && (if pclst != 0 then 2 <= pclst < |fat| && fat[pclst] == clst else Head(fat, clst))
  }

  /**
   The tables such a call may leave, as the contracts of CreateChain and RemoveChain state them. These are all of
   its outcomes unless it leaves a FAT12 entry half stored that lies across a sector boundary.
   */
  ghost predicate Step(fat: seq<nat>, f: seq<nat>, eoc: nat, call: Call)
    requires Proper(fat, call)
  {
    match call
    case Create(clst, val) => CreateStep(fat, f, eoc, clst, val)
    case Remove(clst, pclst) => RemoveStep(fat, f, eoc, clst, pclst)
  }

  /** The table is a forest of disjoint chains on which every allocated cluster lies. */
  ghost predicate Sound(fat: seq<nat>) {
    exists cs :: Forest(fat, cs)
  }

  ghost function OnChains(fat: seq<nat>, cs: set<seq<nat>>): set<nat> {
    set c: nat | 2 <= c < |fat| && Covered(cs, c)
  }

  lemma OnSomeChain(fat: seq<nat>, cs: set<seq<nat>>, c: nat) returns (p: seq<nat>, k: nat)
    requires Forest(fat, cs) && 2 <= c < |fat| && fat[c] != 0
    ensures p in cs && IsChain(fat, p) && k < |p| && p[k] == c
    ensures if k + 1 < |p| then fat[c] == p[k + 1] < |fat| else fat[c] >= |fat|
  {
    assert Covered(cs, c);
    p :| p in cs && c in p;
    k :| 0 <= k < |p| && p[k] == c;
  }

  lemma LinkBefore(fat: seq<nat>, p: seq<nat>, k: nat) returns (c: nat)
    requires IsChain(fat, p) && 0 < k < |p|
    ensures 2 <= c < |fat| && fat[c] == p[k]
  {
    c := p[k - 1];
    assert fat[p[k - 1]] == p[k - 1 + 1];
  }

  /** A sound table has no damaged entry. */
  lemma Undamaged(fat: seq<nat>, c: nat)
    requires Sound(fat) && 2 <= c < |fat|
    ensures fat[c] != 1
  {
    hide IsChain;
    var cs :| Forest(fat, cs);
    if fat[c] == 1 {
      var p, k := OnSomeChain(fat, cs, c);
      ChainAllocated(fat, p);
    }
  }

  // ------------------------------------------------------------- allocating

  lemma AppendedSound(fat: seq<nat>, eoc: nat, clst: nat, val: nat)
    requires Sound(fat) && Allocates(fat, clst, val) && eoc >= |fat|
    ensures Sound(Appended(fat, clst, val, eoc))
  {
    hide Forest, IsChain;
    var cs :| Forest(fat, cs);
    if clst == 0 {
      NewChainForest(fat, cs, val, eoc);
    } else {
      var p, k := OnSomeChain(fat, cs, clst);
      assert k == |p| - 1;
      AppendForest(fat, cs, p, val, eoc);
    }
  }

  /** A free cluster goes behind the end of one chain, or becomes a chain of its own. */
  lemma CreateKeepsSound(fat: seq<nat>, f: seq<nat>, eoc: nat, clst: nat, val: nat)
    requires Sound(fat) && CreateStep(fat, f, eoc, clst, val) && eoc >= |fat|
    ensures Sound(f) && |f| == |fat|
  {
    hide Sound;
    if f != fat {
      if Allocates(fat, clst, val) && f == Appended(fat, clst, val, eoc) {
        AppendedSound(fat, eoc, clst, val);
      } else {
        var ncl :| 2 <= ncl < |fat| && fat[ncl] == 0 && f == Appended(fat, 0, ncl, eoc);
        AppendedSound(fat, eoc, 0, ncl);
      }
    }
  }

  // ------------------------------------------------------------- removing

  /** The chain p and the index k at which a proper removal starts. */
  lemma RemovalPlace(fat: seq<nat>, cs: set<seq<nat>>, clst: nat, pclst: nat) returns (p: seq<nat>, k: nat)
    requires Forest(fat, cs) && Proper(fat, Remove(clst, pclst))
    ensures p in cs && IsChain(fat, p) && k < |p| && p[k] == clst && pclst == if k == 0 then 0 else p[k - 1]
    ensures pclst == 0 ==> k == 0
  {
    hide Forest, IsChain;
    if pclst != 0 {
      var j;
      p, j := OnSomeChain(fat, cs, pclst);
      assert j < |p| - 1;
      k := j + 1;
    } else {
      p, k := OnSomeChain(fat, cs, clst);
      if k > 0 {
        var c := LinkBefore(fat, p, k);
        assert false;
      }
    }
  }

  /** A removal that is not cut short frees exactly the chain's clusters from clst on. */
  lemma RemovedIsCut(fat: seq<nat>, eoc: nat, clst: nat, pclst: nat) returns (p: seq<nat>, k: nat)
    requires Sound(fat) && Proper(fat, Remove(clst, pclst)) && eoc >= |fat|
    ensures IsChain(fat, p) && k < |p| && p[k] == clst && pclst == if k == 0 then 0 else p[k - 1]
    ensures Unlink(Severed(fat, pclst, eoc), clst) == Removed(Cut(fat, p, k, eoc))
    ensures Sound(Cut(fat, p, k, eoc))
  {
    hide Forest, IsChain, Cut, Freed, Unlink, Proper;
    var cs :| Forest(fat, cs);
    p, k := RemovalPlace(fat, cs, clst, pclst);
    RemovalIsCut(fat, p, k, eoc);
    CutForest(fat, cs, p, k, eoc);
  }

  lemma ChainWithout(fat: seq<nat>, q: seq<nat>, c: nat, v: nat)
    requires IsChain(fat, q) && c !in q && c < |fat|
    ensures IsChain(fat[c := v], q)
  {
  }

  lemma PrefixIsChain(fat: seq<nat>, p: seq<nat>, k: nat, eoc: nat)
    requires IsChain(fat, p) && 0 < k < |p| && eoc >= |fat|
    ensures IsChain(fat[p[k - 1] := eoc], p[..k]) && Disjoint(p[..k], p[k..])
  {
    forall i, j | 0 <= i < j < |p| ensures p[i] != p[j] {
      NoRepeat(fat, p, i, j);
    }
    assert forall i :: 0 <= i < k ==> p[..k][i] == p[i];
  }

  /** One chain becomes two. */
  lemma SplitForest(fat: seq<nat>, cs: set<seq<nat>>, p: seq<nat>, k: nat, eoc: nat)
    requires Forest(fat, cs) && p in cs && 0 < k < |p| && eoc >= |fat|
    ensures Forest(fat[p[k - 1] := eoc], cs - {p} + {p[..k], p[k..]})
  {
    var f, a, b := fat[p[k - 1] := eoc], p[..k], p[k..];
    assert p[k - 1] in p && p == a + b;
    PrefixIsChain(fat, p, k, eoc);
    SuffixIsChain(fat, p, k, eoc);
    ChainEntriesNonzero(fat, p, p[k - 1]);
    hide IsChain, Disjoint;
    forall q | q in cs && q != p ensures IsChain(f, q) && Disjoint(q, p) {
      ApartFromParts(q, p, a, b);
      ChainWithout(fat, q, p[k - 1], eoc);
    }
    PartsForest(fat, f, cs, p, a, b);
  }

  lemma PartsForest(fat: seq<nat>, f: seq<nat>, cs: set<seq<nat>>, p: seq<nat>, a: seq<nat>, b: seq<nat>)
    requires Forest(fat, cs) && p in cs && p == a + b && |f| == |fat|
    requires IsChain(f, a) && IsChain(f, b) && Disjoint(a, b)
    requires forall q :: q in cs && q != p ==> IsChain(f, q) && Disjoint(q, p)
    requires forall c :: 2 <= c < |f| && f[c] != 0 ==> fat[c] != 0
    ensures Forest(f, cs - {p} + {a, b})
  {
    hide IsChain, Disjoint;
    forall q | q in cs && q != p ensures Disjoint(q, a) && Disjoint(q, b) {
      ApartFromParts(q, p, a, b);
    }
    SplitDisjoint(cs, p, a, b);
    forall c | 2 <= c < |f| && f[c] != 0 ensures Covered(cs - {p} + {a, b}, c) {
      assert Covered(cs, c);
      SplitCovered(cs, p, a, b, c);
    }
  }

  lemma ApartFromParts(q: seq<nat>, p: seq<nat>, a: seq<nat>, b: seq<nat>)
    requires Disjoint(q, p) && p == a + b
    ensures Disjoint(q, a) && Disjoint(q, b) && forall c :: c in p ==> c !in q
  {
  }

  lemma SplitCovered(cs: set<seq<nat>>, p: seq<nat>, a: seq<nat>, b: seq<nat>, c: nat)
    requires Covered(cs, c) && p == a + b
    ensures Covered(cs - {p} + {a, b}, c)
  {
    var q :| q in cs && c in q;
    assert if q != p then q in cs - {p} + {a, b} else c in a || c in b;
  }

  lemma SplitDisjoint(cs: set<seq<nat>>, p: seq<nat>, a: seq<nat>, b: seq<nat>)
    requires forall q, r :: q in cs && r in cs && q != r ==> Disjoint(q, r)
    requires forall q :: q in cs && q != p ==> Disjoint(q, a) && Disjoint(q, b)
    requires Disjoint(a, b)
    ensures forall q, r :: q in cs - {p} + {a, b} && r in cs - {p} + {a, b} && q != r ==> Disjoint(q, r)
  {
  }

  lemma SeveredSound(fat: seq<nat>, eoc: nat, clst: nat, pclst: nat)
    requires Sound(fat) && Proper(fat, Remove(clst, pclst)) && eoc >= |fat|
    ensures Sound(Severed(fat, pclst, eoc)) && Head(Severed(fat, pclst, eoc), clst) && Severed(fat, pclst, eoc)[clst] != 0
  {
    hide Forest, IsChain;
    var cs :| Forest(fat, cs);
    var f := Severed(fat, pclst, eoc);
    if pclst != 0 {
      var p, k := RemovalPlace(fat, cs, clst, pclst);
      SplitForest(fat, cs, p, k, eoc);
      forall c | 2 <= c < |f| ensures f[c] != clst {
        if f[c] == clst { OneLink(fat, cs, c, pclst); }
      }
    }
  }

  /** Two clusters never link to the same one. */
  lemma OneLink(fat: seq<nat>, cs: set<seq<nat>>, c: nat, d: nat)
    requires Forest(fat, cs) && 2 <= c < |fat| && 2 <= d < |fat| && fat[c] == fat[d] && 2 <= fat[c] < |fat|
    ensures c == d
  {
    hide IsChain;
    var p, i := OnSomeChain(fat, cs, c);
    var q, j := OnSomeChain(fat, cs, d);
    assert p[i + 1] == fat[c] && q[j + 1] == fat[c];
    assert p[i + 1] in p && q[j + 1] in q;
    assert p == q;
    if i < j { NoRepeat(fat, p, i + 1, j + 1); }
    if j < i { NoRepeat(fat, p, j + 1, i + 1); }
  }

  /** Freeing the head of a chain leaves the rest of it. */
  lemma HeadFreedSound(fat: seq<nat>, c: nat)
    requires Sound(fat) && 2 <= c < |fat| && fat[c] != 0 && Head(fat, c)
    ensures Sound(fat[c := 0]) && fat[c] >= 2
    ensures fat[c] < |fat| ==> fat[c := 0][fat[c]] != 0 && Head(fat[c := 0], fat[c])
  {
    hide Forest, IsChain;
    var cs :| Forest(fat, cs);
    var f := fat[c := 0];
    var p, k := RemovalPlace(fat, cs, c, 0);
    BeheadForest(fat, cs, p);
    ChainAllocated(fat, p);
    if fat[c] < |fat| {
      var q, j := OnSomeChain(fat, cs, c);
      ChainAllocated(fat, q);
      assert q[j + 1] in q;
      forall d | 2 <= d < |f| ensures f[d] != fat[c] {
        if f[d] == fat[c] { OneLink(fat, cs, c, d); }
      }
    }
  }

  lemma BeheadForest(fat: seq<nat>, cs: set<seq<nat>>, p: seq<nat>)
    requires Forest(fat, cs) && p in cs
    ensures |p| > 0 && p[0] < |fat| && Sound(fat[p[0] := 0])
  {
    var f, p' := fat[p[0] := 0], p[1..];
    assert p == [p[0]] + p';
    forall i | 0 < i < |p| ensures p[i] != p[0] {
      NoRepeat(fat, p, 0, i);
    }
    if p' != [] {
      forall i | 0 <= i < |p'| - 1 ensures f[p'[i]] == p'[i + 1] {
        assert fat[p[i + 1]] == p[i + 1 + 1];
      }
      assert IsChain(f, p');
    }
    forall q | q in cs && q != p ensures IsChain(f, q) {
      assert Disjoint(q, p) && p[0] in p;
    }
    hide IsChain;
    ReplaceChain(fat, f, cs, p, p');
  }

  /** However far the loop gets, what is left of the chain is a chain. */
  lemma {:induction false} RoundsSound(fat: seq<nat>, c: nat, n: nat)
    requires Sound(fat) && 2 <= c < |fat| && fat[c] != 0 && Head(fat, c)
    ensures var (f, d) := Rounds(fat, c, n); Sound(f) && (d < |f| ==> 2 <= d && f[d] != 0 && Head(f, d))
  {
    hide Sound, Head;
    if n > 0 {
      RoundsSound(fat, c, n - 1);
      var (f, d) := Rounds(fat, c, n - 1);
      if d < |f| { HeadFreedSound(f, d); }
    }
  }

  lemma RemoveKeepsSound(fat: seq<nat>, f: seq<nat>, eoc: nat, clst: nat, pclst: nat)
    requires Sound(fat) && Proper(fat, Remove(clst, pclst)) && RemoveStep(fat, f, eoc, clst, pclst) && eoc >= |fat|
    ensures Sound(f) && |f| == |fat|
  {
    hide Sound, Head, Unlink, Rounds;
    if f != fat {
      if f == Unlink(Severed(fat, pclst, eoc), clst).fat {
        var p, k := RemovedIsCut(fat, eoc, clst, pclst);
      } else {
        var n :| f == Rounds(Severed(fat, pclst, eoc), clst, n).0;
        SeveredSound(fat, eoc, clst, pclst);
        RoundsSound(Severed(fat, pclst, eoc), clst, n);
      }
    }
  }

  // ------------------------------------------------------------- an entry half stored

  /** The chain from h runs through c. */
  ghost predicate Leads(fat: seq<nat>, h: nat, c: nat) {
    exists p :: IsChain(fat, p) && p[0] == h && c in p
  }

  /**
   With c ended in g, c may lead to h instead: an end mark, or free c if it is a whole chain, or the head of a chain
   that does not run through c.
   */
  ghost predicate MayLead(g: seq<nat>, c: nat, h: nat) {
    h >= |g| || (h == 0 && Head(g, c)) || (2 <= h < |g| && g[h] != 0 && Head(g, h) && !Leads(g, h, c))
  }

  /** An entry that a broken store has left at h, whatever it was: when the table is still sound. */
  lemma StrayLink(fat: seq<nat>, c: nat, h: nat, eoc: nat)
    requires Sound(fat) && 2 <= c < |fat| && eoc >= |fat|
    ensures Sound(fat[c := eoc])
    ensures Sound(fat[c := h]) <==> MayLead(fat[c := eoc], c, h)
  {
    hide Sound, Head, Leads;
    var g := fat[c := eoc];
    EndedSound(fat, c, eoc);
    assert g[c := h] == fat[c := h];
    if h >= |fat| {
      EndedSound(fat, c, h);
    } else if h == 0 && Head(g, c) {
      HeadFreedSound(g, c);
    } else if 2 <= h && g[h] != 0 && Head(g, h) && !Leads(g, h, c) {
      JoinedSound(g, c, h);
    } else if Sound(fat[c := h]) {
      StrayFrom(g, c, h);
    }
  }

  lemma EndedSound(fat: seq<nat>, c: nat, eoc: nat)
    requires Sound(fat) && 2 <= c < |fat| && eoc >= |fat|
    ensures Sound(fat[c := eoc])
  {
    hide Forest, IsChain;
    var cs :| Forest(fat, cs);
    if fat[c] == 0 {
      NewChainForest(fat, cs, c, eoc);
    } else {
      var p, k := OnSomeChain(fat, cs, c);
      if k + 1 < |p| {
        SplitForest(fat, cs, p, k + 1, eoc);
      } else {
        RemarkedForest(fat, cs, p, eoc);
      }
    }
  }

  /** Another end mark at the end of a chain. */
  lemma RemarkedForest(fat: seq<nat>, cs: set<seq<nat>>, p: seq<nat>, eoc: nat)
    requires Forest(fat, cs) && p in cs && eoc >= |fat|
    ensures |p| > 0 && p[|p| - 1] < |fat| && Sound(fat[p[|p| - 1] := eoc])
  {
    var c := p[|p| - 1];
    var f := fat[c := eoc];
    forall i | 0 <= i < |p| - 1 ensures p[i] != c {
      NoRepeat(fat, p, i, |p| - 1);
    }
    assert IsChain(f, p) && c in p;
    forall q | q in cs && q != p ensures IsChain(f, q) {
      assert Disjoint(p, q);
      ChainWithout(fat, q, c, eoc);
    }
    hide IsChain;
    ReplaceChain(fat, f, cs, p, p);
  }

  lemma JoinedSound(g: seq<nat>, c: nat, h: nat)
    requires Sound(g) && 2 <= c < |g| && g[c] >= |g| && 2 <= h < |g| && g[h] != 0 && Head(g, h) && !Leads(g, h, c)
    ensures Sound(g[c := h])
  {
    hide Forest, IsChain;
    var cs :| Forest(g, cs);
    var p, k := OnSomeChain(g, cs, c);
    var q, j := RemovalPlace(g, cs, h, 0);
    assert k == |p| - 1 && j == 0;
    assert c in p;
    JoinForest(g, cs, p, q);
  }

  lemma JoinForest(g: seq<nat>, cs: set<seq<nat>>, p: seq<nat>, q: seq<nat>)
    requires Forest(g, cs) && p in cs && q in cs && p != q
    ensures |p| > 0 && |q| > 0 && p[|p| - 1] < |g|
    ensures Sound(g[p[|p| - 1] := q[0]])
  {
    var c := p[|p| - 1];
    var f := g[c := q[0]];
    assert Disjoint(p, q) && c in p;
    JoinIsChain(g, p, q);
    forall r | r in cs && r != p && r != q ensures IsChain(f, r) {
      assert Disjoint(p, r);
      ChainWithout(g, r, c, q[0]);
    }
    ChainAllocated(g, p);
    hide IsChain;
    JoinedParts(g, f, cs, p, q);
  }

  lemma JoinIsChain(g: seq<nat>, p: seq<nat>, q: seq<nat>)
    requires IsChain(g, p) && IsChain(g, q) && Disjoint(p, q)
    ensures IsChain(g[p[|p| - 1] := q[0]], p + q)
  {
    var c, r := p[|p| - 1], p + q;
    var f := g[c := q[0]];
    assert c in p;
    forall i | 0 <= i < |r| - 1 ensures f[r[i]] == r[i + 1] {
      if i < |p| - 1 {
        NoRepeat(g, p, i, |p| - 1);
        assert g[p[i]] == p[i + 1];
      } else if i >= |p| {
        assert r[i] == q[i - |p|] && q[i - |p|] in q;
        assert g[q[i - |p|]] == q[i - |p| + 1];
      }
    }
    assert q[|q| - 1] in q;
  }

  lemma JoinedParts(g: seq<nat>, f: seq<nat>, cs: set<seq<nat>>, p: seq<nat>, q: seq<nat>)
    requires Forest(g, cs) && p in cs && q in cs && p != q && |f| == |g|
    requires IsChain(f, p + q) && forall r :: r in cs && r != p && r != q ==> IsChain(f, r)
    requires forall c :: 2 <= c < |f| && f[c] != 0 ==> g[c] != 0
    ensures Forest(f, cs - {p, q} + {p + q})
  {
    hide IsChain;
    var cs' := cs - {p, q} + {p + q};
    forall r | r in cs && r != p && r != q ensures Disjoint(r, p + q) && Disjoint(p + q, r) {
      assert Disjoint(r, p) && Disjoint(r, q) && Disjoint(p, r) && Disjoint(q, r);
    }
    hide Disjoint;
    forall c | 2 <= c < |f| && f[c] != 0 ensures Covered(cs', c) {
      assert Covered(cs, c);
      var r :| r in cs && c in r;
      assert if r == p || r == q then c in p + q && p + q in cs' else r in cs';
    }
  }

  /** Where a stray link of a sound table leads. */
  lemma StrayFrom(g: seq<nat>, c: nat, h: nat)
    requires 2 <= c < |g| && g[c] >= |g| && h < |g| && Sound(g[c := h])
    ensures (h == 0 && Head(g, c)) || (2 <= h && g[h] != 0 && Head(g, h) && !Leads(g, h, c))
  {
    hide Forest, IsChain, Leads;
    var f := g[c := h];
    Undamaged(f, c);
    if h == 0 {
      FreeIsHead(f, c);
      assert forall d :: 2 <= d < |g| && d != c ==> f[d] == g[d];
    } else {
      var cs :| Forest(f, cs);
      var p, k := OnSomeChain(f, cs, c);
      assert p[k + 1] == h && p[k + 1] in p;
      ChainEntriesNonzero(f, p, h);
      NoRepeat(f, p, k, k + 1);
      forall d | 2 <= d < |g| ensures g[d] != h {
        if g[d] == h { OneLink(f, cs, c, d); }
      }
      NoLoop(g, f, p, k, h, c);
    }
  }

  /** A link from the end of a chain to its head would close a loop. */
  lemma NoLoop(g: seq<nat>, f: seq<nat>, p: seq<nat>, k: nat, h: nat, c: nat)
    requires 2 <= c < |g| && f == g[c := h] && g[c] >= |g|
    requires IsChain(f, p) && k + 1 < |p| && p[k] == c && p[k + 1] == h
    ensures !Leads(g, h, c)
  {
    if Leads(g, h, c) {
      var r :| IsChain(g, r) && r[0] == h && c in r;
      var j :| 0 <= j < |r| && r[j] == c;
      EndIsLast(g, r, j);
      AlongChain(g, f, p, k + 1, r, j, c);
      NoRepeat(f, p, k, k + 1 + j);
    }
  }

  lemma EndIsLast(g: seq<nat>, r: seq<nat>, j: nat)
    requires IsChain(g, r) && j < |r| && r[j] < |g| && g[r[j]] >= |g|
    ensures j == |r| - 1
  {
    if |r| > 1 {
      var i := if j < |r| - 1 then j else 0;
      assert g[r[i]] == r[i + 1];
    }
  }

  lemma {:induction false} AlongChain(g: seq<nat>, f: seq<nat>, p: seq<nat>, a: nat, r: seq<nat>, j: nat, c: nat)
    requires IsChain(g, r) && IsChain(f, p) && |f| == |g| && j < |r| && r[|r| - 1] == c
    requires forall d :: 0 <= d < |g| && d != c ==> f[d] == g[d]
    requires a < |p| && p[a] == r[0]
    ensures a + j < |p| && p[a + j] == r[j]
  {
    if j > 0 {
      AlongChain(g, f, p, a, r, j - 1, c);
      NoRepeat(g, r, j - 1, |r| - 1);
      assert f[r[j - 1]] == g[r[j - 1]] == r[j - 1 + 1];
      assert a + j - 1 < |p| - 1 ==> f[p[a + j - 1]] == p[a + j - 1 + 1];
    }
  }

  /** A removal that leaves an entry half stored has changed a sound table there, and is sound exactly when that entry may lead so. */
  lemma RemoveTornSound(t: FsType, fat: seq<nat>, f: seq<nat>, eoc: nat, clst: nat, pclst: nat) returns (base: seq<nat>, c: nat)
    requires Sound(fat) && Proper(fat, Remove(clst, pclst)) && eoc >= |fat| && RemoveTorn(t, fat, f, eoc, clst, pclst)
    ensures Sound(base) && |base| == |fat| == |f| && 2 <= c < |fat| && Straddles(t, c) && f == base[c := f[c]]
    ensures Sound(f) <==> MayLead(base[c := eoc], c, f[c])
  {
    hide Sound, Head, MayLead, Rounds, Half12, Straddles;
    if pclst != 0 && Torn(t, fat, f, pclst, EOC) {
      base, c := fat, pclst;
    } else {
      var g := Severed(fat, pclst, eoc);
      var n: nat :| Torn(t, Rounds(g, clst, n).0, f, Rounds(g, clst, n).1, 0);
      SeveredSound(fat, eoc, clst, pclst);
      RoundsSound(g, clst, n);
      base, c := Rounds(g, clst, n).0, Rounds(g, clst, n).1;
    }
    StrayLink(base, c, f[c], eoc);
  }

  /** The same for an allocation. */
  lemma CreateTornSound(t: FsType, fat: seq<nat>, f: seq<nat>, eoc: nat, clst: nat, val: nat) returns (base: seq<nat>, c: nat)
    requires Sound(fat) && Proper(fat, Create(clst, val)) && eoc >= |fat| && CreateTorn(t, fat, f, eoc, clst)
    ensures Sound(base) && |base| == |fat| == |f| && 2 <= c < |fat| && Straddles(t, c) && f == base[c := f[c]]
    ensures Sound(f) <==> MayLead(base[c := eoc], c, f[c])
  {
    hide Sound, MayLead, Half12, Straddles;
    var ncl: Dword :| 2 <= ncl < |fat| && fat[ncl] == 0 &&
      (Torn(t, fat, f, ncl, EOC) || (clst != 0 && Torn(t, Appended(fat, 0, ncl, eoc), f, clst, ncl)));
    if Torn(t, fat, f, ncl, EOC) {
      base, c := fat, ncl;
    } else {
      AppendedSound(fat, eoc, 0, ncl);
      base, c := Appended(fat, 0, ncl, eoc), clst;
    }
    StrayLink(base, c, f[c], eoc);
  }

  /** The removal loop walks along the chain. */
  lemma {:induction false} RoundsAlong(fat: seq<nat>, q: seq<nat>, n: nat)
    requires IsChain(fat, q)
    ensures var (f, d) := Rounds(fat, q[0], n);
            && (if n < |q| then d == q[n] else d >= |fat|)
            && forall x :: 0 <= x < |fat| && x !in q[..if n < |q| then n else |q|] ==> f[x] == fat[x]
  {
    if n > 0 {
      RoundsAlong(fat, q, n - 1);
      if n - 1 < |q| {
        forall i | 0 <= i < n - 1 ensures q[i] != q[n - 1] {
          NoRepeat(fat, q, i, n - 1);
        }
        assert n < |q| ==> fat[q[n - 1]] == q[n - 1 + 1];
        assert q[..n] == q[..n - 1] + [q[n - 1]];
      }
    }
  }

  /** What a caller can look at before: no entry along the removed part, or in front of it, across a sector boundary. */
  lemma TornOnChain(t: FsType, fat: seq<nat>, f: seq<nat>, eoc: nat, p: seq<nat>, k: nat)
    requires IsChain(fat, p) && k < |p| && RemoveTorn(t, fat, f, eoc, p[k], if k == 0 then 0 else p[k - 1])
    ensures exists i :: k <= i + 1 && i < |p| && 0 <= i && Straddles(t, p[i])
  {
    hide Straddles, Half12, Rounds;
    var pclst := if k == 0 then 0 else p[k - 1];
    if !(pclst != 0 && Torn(t, fat, f, pclst, EOC)) {
      var g := Severed(fat, pclst, eoc);
      SuffixIsChain(fat, p, k, eoc);
      var n: nat :| Torn(t, Rounds(g, p[k], n).0, f, Rounds(g, p[k], n).1, 0);
      RoundsAlong(g, p[k..], n);
      assert p[k..][n] == p[k + n];
    }
  }

  /** An input that does not survive: freeing a chain breaks off in its first entry, which then leads into another chain. */
  lemma HalfFreed(eoc: nat) returns (fat: seq<nat>, f: seq<nat>)
    requires eoc >= 400
    ensures Sound(fat) && |fat| == 400 && Proper(fat, Remove(341, 0)) && RemoveTorn(Fat12, fat, f, eoc, 341, 0)
    ensures !Sound(f)
  {
    fat := seq(400, c requires 0 <= c < 400 => if c == 341 then 261 else if c == 255 then 256 else if c == 261 || c == 256 then eoc else 0);
    assert IsChain(fat, [341, 261]) && IsChain(fat, [255, 256]);
    assert Forest(fat, {[341, 261], [255, 256]}) by {
      forall c | 2 <= c < |fat| && fat[c] != 0 ensures Covered({[341, 261], [255, 256]}, c) {
        assert c in [341, 261] || c in [255, 256];
      }
    }
    f := fat[341 := 256];
    assert Torn(Fat12, Rounds(Severed(fat, 0, eoc), 341, 0).0, f, Rounds(Severed(fat, 0, eoc), 341, 0).1, 0);
    StrayLink(fat, 341, 256, eoc);
    assert fat[341 := eoc][255] == 256;
  }

  // ------------------------------------------------------------- runs

  ghost predicate IsRun(states: seq<seq<nat>>, calls: seq<Call>, eoc: nat) {
    && |states| == |calls| + 1
    && forall i :: 0 <= i < |calls| ==> Proper(states[i], calls[i]) && Step(states[i], states[i + 1], eoc, calls[i])
  }

  /** In every state of every run the table is sound, calls broken off between two entries included. */
  lemma {:induction false} RunKeepsSound(states: seq<seq<nat>>, calls: seq<Call>, eoc: nat, i: nat)
    requires IsRun(states, calls, eoc) && Sound(states[0]) && eoc >= |states[0]| && i <= |calls|
    ensures Sound(states[i]) && |states[i]| == |states[0]|
  {
    hide Sound, CreateStep, RemoveStep;
    if i > 0 {
      RunKeepsSound(states, calls, eoc, i - 1);
      assert Step(states[i - 1], states[i - 1 + 1], eoc, calls[i - 1]);
      match calls[i - 1]
      case Create(clst, val) => CreateKeepsSound(states[i - 1], states[i], eoc, clst, val);
      case Remove(clst, pclst) => RemoveKeepsSound(states[i - 1], states[i], eoc, clst, pclst);
    }
  }

  // ------------------------------------------------------------- seen from one file

  /** The table is sound, and the file's chain is a whole one. */
  ghost predicate Rooted(fat: seq<nat>, chain: seq<nat>) {
    Sound(fat) && (chain != [] ==> Head(fat, chain[0]))
  }

  /** A change made for one file: it stays so, and the heads of other chains stay heads. */
  ghost predicate TableKept(fat: seq<nat>, chain: seq<nat>, fat': seq<nat>, chain': seq<nat>) {
    && (Rooted(fat, chain) ==> Rooted(fat', chain'))
    && forall h :: 2 <= h < |fat| && fat[h] != 0 && h !in chain && Head(fat, h) ==> Head(fat', h)
  }

  lemma SameTable(fat: seq<nat>, chain: seq<nat>)
    ensures TableKept(fat, chain, fat, chain)
  {
  }

  lemma TableOnward(fat: seq<nat>, chain: seq<nat>, fat': seq<nat>, chain': seq<nat>, fat'': seq<nat>, chain'': seq<nat>)
    requires TableKept(fat, chain, fat', chain') && TableKept(fat', chain', fat'', chain'') && |fat'| == |fat|
    requires forall h :: 2 <= h < |fat| && fat[h] != 0 && h !in chain ==> fat'[h] == fat[h]
    requires forall h :: h in chain' ==> h in chain || (2 <= h < |fat| && fat[h] == 0)
    ensures TableKept(fat, chain, fat'', chain'')
  {
    hide Rooted, Head;
  }

  /** The file's chain has grown. */
  lemma GrownTable(fat: seq<nat>, chain: seq<nat>, ncl: nat, eoc: nat)
    requires chain != [] ==> IsChain(fat, chain)
    requires 2 <= ncl < |fat| && fat[ncl] == 0 && eoc >= |fat|
    ensures var clst := if chain == [] then 0 else chain[|chain| - 1];
            (clst == 0 || 2 <= clst < |fat|) && TableKept(fat, chain, Appended(fat, clst, ncl, eoc), chain + [ncl])
  {
    if chain != [] { ChainAllocated(fat, chain); assert chain[0] in chain; }
    var clst := if chain == [] then 0 else chain[|chain| - 1];
    if Rooted(fat, chain) {
      AppendedSound(fat, eoc, clst, ncl);
      if chain == [] { FreeIsHead(fat, ncl); }
    }
    hide Sound, IsChain;
  }

  lemma FreeIsHead(fat: seq<nat>, ncl: nat)
    requires Sound(fat) && 2 <= ncl < |fat| && fat[ncl] == 0
    ensures Head(fat, ncl)
  {
    hide IsChain;
    var cs :| Forest(fat, cs);
    forall c | 2 <= c < |fat| ensures fat[c] != ncl {
      if fat[c] == ncl {
        var p, k := OnSomeChain(fat, cs, c);
        assert p[k + 1] in p;
        ChainAllocated(fat, p);
      }
    }
  }

  /** A stretch that took no cluster for the file. */
  lemma NotGrownTable(fat: seq<nat>, f: seq<nat>, eoc: nat, clst: nat, val: nat, chain: seq<nat>)
    requires CreateStep(fat, f, eoc, clst, val) && !Allocates(fat, clst, val) && eoc >= |fat|
    requires chain != [] ==> 2 <= chain[0] < |fat|
    ensures TableKept(fat, chain, f, chain)
  {
    if Sound(fat) { CreateKeepsSound(fat, f, eoc, clst, val); }
    hide Sound;
  }

  lemma RoundsOnlyClear(fat: seq<nat>, c: nat, n: nat)
    ensures forall d :: 0 <= d < |fat| ==> Rounds(fat, c, n).0[d] == fat[d] || Rounds(fat, c, n).0[d] == 0
  {
  }

  /** A removal for the file, broken off or not. */
  lemma CutTableKept(fat: seq<nat>, f: seq<nat>, eoc: nat, clst: nat, pclst: nat, chain: seq<nat>, chain': seq<nat>)
    requires 2 <= clst < |fat| && fat[clst] != 0 && RemoveStep(fat, f, eoc, clst, pclst) && eoc >= |fat|
    requires if pclst == 0 then chain != [] && clst == chain[0] else 2 <= pclst < |fat| && fat[pclst] == clst
    requires chain' <= chain && (chain != [] ==> 2 <= chain[0] < |fat|)
    ensures TableKept(fat, chain, f, chain')
  {
    if Rooted(fat, chain) { RemoveKeepsSound(fat, f, eoc, clst, pclst); }
    var g := Severed(fat, pclst, eoc);
    forall d | 0 <= d < |fat| ensures |f| == |fat| && (f[d] == fat[d] || f[d] == 0 || f[d] == eoc) {
      if f != fat {
        if f == Unlink(g, clst).fat {
          UnlinkOnlyClears(g, clst, d);
        } else {
          var n :| f == Rounds(g, clst, n).0;
          RoundsOnlyClear(g, clst, n);
        }
      }
    }
    hide Sound, RemoveStep, Unlink, Rounds;
  }

  // ------------------------------------------------------------- no cluster is lost

  /** On a sound table the clusters on chains and the free ones are all there are. */
  lemma ClustersConserved(fat: seq<nat>, cs: set<seq<nat>>)
    requires Forest(fat, cs) && |fat| >= 2
    ensures |OnChains(fat, cs)| + FreeCount(fat) == |fat| - 2
    ensures forall c :: 2 <= c < |fat| ==> (c in OnChains(fat, cs) <==> fat[c] != 0)
  {
    forall c: nat | 2 <= c < |fat| && Covered(cs, c) ensures fat[c] != 0 {
      var p :| p in cs && c in p;
      ChainAllocated(fat, p);
    }
    AllocatedCount(fat, |fat|);
    assert OnChains(fat, cs) == AllocatedBelow(fat, |fat|);
  }

  ghost function AllocatedBelow(fat: seq<nat>, k: nat): set<nat>
    requires k <= |fat|
  {
    set c: nat | 2 <= c < k && fat[c] != 0
  }

  lemma {:induction false} AllocatedCount(fat: seq<nat>, k: nat)
    requires 2 <= k <= |fat|
    ensures |AllocatedBelow(fat, k)| + FreeBelow(fat, k) == k - 2
  {
    if k == 2 {
      assert AllocatedBelow(fat, 2) == {};
    } else {
      AllocatedCount(fat, k - 1);
      if fat[k - 1] == 0 {
        assert AllocatedBelow(fat, k) == AllocatedBelow(fat, k - 1);
      } else {
        assert AllocatedBelow(fat, k) == AllocatedBelow(fat, k - 1) + {k - 1};
      }
    }
  }
}
