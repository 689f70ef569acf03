/** The active chain as a vector of block index entries (src/chain.h, src/chain.cpp). */
module Chains {
  import opened BlockIndexes
  import opened Common

  /** The highest entry that two paths share, or null if they share none. */
  ghost predicate IsFork(p: seq<BlockIndex?>, q: seq<BlockIndex?>, r: BlockIndex?)
    reads p, q
  {
    if r == null then forall b :: b != null && b in p ==> b !in q
    else r in p && r in q && forall b :: b != null && b in p && b in q ==> b.nHeight <= r.nHeight
  }

  /** Enough to know: the entry at `k - 1` is shared, and no entry above it is. */
  lemma ForkAt(tree: set<BlockIndex>, p: seq<BlockIndex?>, q: seq<BlockIndex?>, k: nat)
    requires Tree(tree) && IsPath(tree, p) && IsPath(tree, q) && k <= |p|
    requires k > 0 ==> k <= |q| && p[k - 1] == q[k - 1]
    requires forall i :: k <= i < |p| && i < |q| ==> p[i] != q[i]
    ensures IsFork(p, q, if k == 0 then null else p[k - 1])
  {
  }

  lemma PathHeights(tree: set<BlockIndex>, p: seq<BlockIndex?>)
    requires Tree(tree) && IsPath(tree, p)
    ensures forall i :: 0 <= i < |p| ==> p[i] != null && p[i] in tree && p[i].nHeight == i
  {
  }

  // ---------------------------------------------------------------- locators

  /** How far below its start the `i`-th entry of a locator lies: ten single steps, then doubling ones. */
  ghost function Offset(i: nat): nat {
    if i <= 11 then i else 9 + Pow2(i - 10)
  }

  ghost function LocatorHeight(h: nat, i: nat): nat {
    if Offset(i) < h then h - Offset(i) else 0
  }

  ghost predicate LocatorSoFar(tree: set<BlockIndex>, start: BlockIndex, vHave: seq<BlockIndex>)
    reads start, tree
  {
    && |start.Path| == start.nHeight + 1
    && (forall i :: 0 <= i < |vHave| ==> vHave[i] == start.Path[LocatorHeight(start.nHeight, i)])
    && (forall i :: 0 <= i < |vHave| ==> LocatorHeight(start.nHeight, i) > 0)
  }

  /** The floor of the binary logarithm. */
  ghost function Log2(h: nat): (r: nat)
    requires h >= 1
    ensures Pow2(r) <= h < Pow2(r + 1)
  {
    if h == 1 then 0 else 1 + Log2(h / 2)
  }

  /** A locator: strictly descending ancestors from the start to the first block, logarithmically many. */
  ghost predicate IsLocator(tree: set<BlockIndex>, start: BlockIndex, vHave: seq<BlockIndex>)
    reads start, tree, vHave
  {
    && |vHave| > 0 && vHave[0] == start && vHave[|vHave| - 1].nHeight == 0
    && (forall i :: 0 <= i < |vHave| ==> vHave[i].nHeight < |start.Path| && vHave[i] == start.Path[vHave[i].nHeight])
    && (forall i :: 0 <= i < |vHave| ==> vHave[i].nHeight == LocatorHeight(start.nHeight, i))
    && (forall i, j :: 0 <= i < j < |vHave| ==> vHave[i].nHeight > vHave[j].nHeight)
    && |vHave| <= if start.nHeight == 0 then 1 else 12 + Log2(start.nHeight)
  }

  lemma NextOffset(i: nat)
    ensures Offset(i + 1) > Offset(i)
    ensures Offset(i + 2) - Offset(i + 1) == if i + 1 > 10 then 2 * (Offset(i + 1) - Offset(i)) else 1
    ensures i + 1 <= 10 ==> Offset(i + 1) - Offset(i) == 1
  {
  }

  lemma {:induction false} OffsetMonotone(i: nat, j: nat)
    requires i < j
    ensures Offset(i) < Offset(j)
    decreases j
  {
    NextOffset(j - 1);
    if i < j - 1 {
      OffsetMonotone(i, j - 1);
    }
  }

  /** The number of entries, counting the one at height zero. */
  lemma LocatorLength(h: nat, n: nat)
    requires h > 0 && n > 0 && LocatorHeight(h, n - 1) > 0
    ensures n + 1 <= 12 + Log2(h)
  {
    if n > 11 && n + 1 > 12 + Log2(h) {
      assert n == 12 ==> Pow2(1) == 2;
      Pow2Monotone(Log2(h) + 1, n - 11);
    }
  }

  lemma LocatorComplete(tree: set<BlockIndex>, start: BlockIndex, vHave: seq<BlockIndex>)
    requires Tree(tree) && start in tree && |start.Path| == start.nHeight + 1
    requires
      var n := |vHave| - 1;
      n >= 0 && LocatorSoFar(tree, start, vHave[..n]) && LocatorHeight(start.nHeight, n) == 0 && vHave[n] == start.Path[0]
    ensures IsLocator(tree, start, vHave)
  {
    hide Tree, Log2, LocatorHeight, Offset;
    var n, h := |vHave| - 1, start.nHeight;
    forall i | 0 <= i <= n
      ensures LocatorHeight(h, i) <= h && vHave[i] == start.Path[LocatorHeight(h, i)]
      ensures vHave[i].nHeight == LocatorHeight(h, i)
    {
      LowerThan(h, i);
      assert i < n ==> vHave[i] == vHave[..n][i];
      OnPath(tree, start, LocatorHeight(h, i));
    }
    PathEnds(tree, start);
    StartHeight(h);
    forall i, j | 0 <= i < j <= n
      ensures vHave[i].nHeight > vHave[j].nHeight
    {
      Descends(h, i, j);
    }
    if n > 0 {
      LocatorLength(h, n);
    }
  }

  lemma LowerThan(h: nat, i: nat)
    ensures LocatorHeight(h, i) <= h
  {
  }

  lemma StartHeight(h: nat)
    ensures LocatorHeight(h, 0) == h
  {
  }

  lemma Descends(h: nat, i: nat, j: nat)
    requires i < j && LocatorHeight(h, i) > 0
    ensures LocatorHeight(h, i) > LocatorHeight(h, j)
  {
    OffsetMonotone(i, j);
  }

  lemma NextHeight(h: nat, i: nat, nStep: nat)
    requires nStep == Offset(i + 1) - Offset(i) && LocatorHeight(h, i) > 0
    ensures LocatorHeight(h, i + 1) == if LocatorHeight(h, i) > nStep then LocatorHeight(h, i) - nStep else 0
  {
  }

  class Chain {
    var vChain: seq<BlockIndex?>

    /** The vector is empty or the path of its last entry. */
    ghost predicate Valid(tree: set<BlockIndex>)
      reads this, tree
    {
      Tree(tree) && IsPath(tree, vChain)
    }

    constructor ()
      ensures vChain == []
    {
      vChain := [];
    }

    function Tip(): BlockIndex?
      reads this
    {
      if |vChain| > 0 then vChain[|vChain| - 1] else null
    }

    function At(nHeight: int): BlockIndex?
      reads this
    {
      if nHeight < 0 || nHeight >= |vChain| then null else vChain[nHeight]
    }

    predicate Contains(pindex: BlockIndex)
      reads this, pindex
    {
      At(pindex.nHeight) == pindex
    }

    function Height(): int
      reads this
    {
      |vChain| - 1
    }

    /** Makes the vector the path of a new tip. */
    method SetTip(tip: BlockIndex?, ghost tree: set<BlockIndex>)
      requires Valid(tree) && (tip != null ==> tip in tree)
      modifies this
      ensures Valid(tree)
      ensures vChain == if tip == null then [] else tip.Path
    {
      hide Tree;
      if tip == null {
        vChain := [];
      } else {
        PathEnds(tree, tip);
        var resized := Resized(vChain, tip.nHeight + 1);
        vChain := FillBack(resized, tip, tree, vChain);
      }
    }

    /** A locator for an entry, by default the tip. */
    method GetLocator(pindexIn: BlockIndex?, ghost tree: set<BlockIndex>) returns (vHave: seq<BlockIndex>)
      requires Valid(tree) && (pindexIn != null ==> pindexIn in tree)
      ensures
        var start := if pindexIn == null then Tip() else pindexIn;
        if start == null then vHave == [] else IsLocator(tree, start, vHave)
    {
      var pindex := pindexIn;
      if pindex == null {
        pindex := Tip();
      }
      if pindex == null {
        return [];
      }
      vHave := LocatorFrom(pindex, tree);
    }

    method LocatorFrom(start: BlockIndex, ghost tree: set<BlockIndex>) returns (vHave: seq<BlockIndex>)
      requires Valid(tree) && start in tree
      ensures IsLocator(tree, start, vHave)
    {
      hide Tree, LocatorHeight, Offset, IsLocator, IsPath;
      var nStep := 1;
      vHave := [];
      var pindex := start;
      PathEnds(tree, start);
      StartHeight(start.nHeight);
      NextOffset(0);
      while true
        invariant pindex in tree && pindex.nHeight <= start.nHeight && pindex == start.Path[pindex.nHeight]
        invariant pindex.nHeight == LocatorHeight(start.nHeight, |vHave|)
        invariant nStep == Offset(|vHave| + 1) - Offset(|vHave|) > 0
        invariant LocatorSoFar(tree, start, vHave)
        decreases pindex.nHeight
      {
        ghost var i := |vHave|;
        vHave := vHave + [pindex];
        assert vHave[..i] + [pindex] == vHave;
        if pindex.nHeight == 0 {
          LocatorComplete(tree, start, vHave);
          break;
        }
        var nHeight := if pindex.nHeight > nStep then pindex.nHeight - nStep else 0;
        NextHeight(start.nHeight, i, nStep);
        OnPath(tree, start, nHeight);
        if Contains(pindex) {
          SamePrefix(tree, vChain, start, pindex.nHeight);
          pindex := At(nHeight);
        } else {
          OnPath(tree, start, pindex.nHeight);
          ghost var steps;
          pindex, steps := pindex.GetAncestor(nHeight, tree);
        }
        NextOffset(i);
        if |vHave| > 10 {
          nStep := nStep * 2;
        }
      }
    }

    /** The last block that an entry's path shares with the chain. */
    method FindFork(pindexIn: BlockIndex?, ghost tree: set<BlockIndex>) returns (pindex: BlockIndex?)
      requires Valid(tree) && (pindexIn != null ==> pindexIn in tree)
      ensures if pindexIn == null then pindex == null else IsFork(pindexIn.Path, vChain, pindex)
    {
      hide Tree;
      if pindexIn == null {
        return null;
      }
      PathEnds(tree, pindexIn);
      PathHeights(tree, vChain);
      pindex := pindexIn;
      ghost var k := pindexIn.nHeight + 1;
      if pindexIn.nHeight > Height() {
        ghost var steps;
        pindex, steps := pindexIn.GetAncestor(Height(), tree);
        k := |vChain|;
      }
      if k > 0 {
        OnPath(tree, pindexIn, k - 1);
      }
      while pindex != null && !Contains(pindex)
        invariant 0 <= k <= |pindexIn.Path| && k <= |vChain|
        invariant pindex == if k == 0 then null else pindexIn.Path[k - 1]
        invariant pindex != null ==> pindex in tree && pindex.nHeight == k - 1
        invariant forall i :: k <= i < |pindexIn.Path| && i < |vChain| ==> pindexIn.Path[i] != vChain[i]
        decreases k
      {
        Back(tree, pindexIn, k - 1);
        pindex := pindex.pprev;
        k := k - 1;
      }
      ForkAt(tree, pindexIn.Path, vChain, k);
    }
  }

  function Resized(v: seq<BlockIndex?>, n: nat): (r: seq<BlockIndex?>)
    ensures |r| == n && forall i :: 0 <= i < n ==> r[i] == if i < |v| then v[i] else null
  {
    if n <= |v| then v[..n] else v + seq(n - |v|, _ => null)
  }

  /** A vector that is empty or the path of its last entry. */
  ghost predicate IsPath(tree: set<BlockIndex>, v: seq<BlockIndex?>)
    reads tree
  {
    v != [] ==>
      var tip := v[|v| - 1];
      tip != null && tip in tree && v == tip.Path
  }

  /** Writes the entries of a path, from its end to the first one that is in place already. */
  method FillBack(v: seq<BlockIndex?>, tip: BlockIndex, ghost tree: set<BlockIndex>,
                  ghost was: seq<BlockIndex?>) returns (r: seq<BlockIndex?>)
    requires Tree(tree) && tip in tree && IsPath(tree, was) && |v| == tip.nHeight + 1
    requires forall i :: 0 <= i < |v| ==> v[i] == if i < |was| then was[i] else null
    ensures r == tip.Path
  {
    hide Tree;
    PathEnds(tree, tip);
    r := v;
    var pindex: BlockIndex? := tip;
    ghost var k := tip.nHeight + 1;
    while pindex != null && r[pindex.nHeight] != pindex
      invariant 0 <= k <= |r| == tip.nHeight + 1
      invariant pindex == if k == 0 then null else tip.Path[k - 1]
      invariant pindex != null ==> pindex in tree && pindex.nHeight == k - 1
      invariant forall i :: k <= i < |r| ==> r[i] == tip.Path[i]
      invariant forall i :: 0 <= i < k ==> r[i] == v[i]
      decreases k
    {
      Back(tree, tip, k - 1);
      r := r[pindex.nHeight := pindex];
      pindex := pindex.pprev;
      k := k - 1;
    }
    if pindex != null {
      SamePrefix(tree, was, tip, k - 1);
    }
  }

  lemma Back(tree: set<BlockIndex>, tip: BlockIndex, k: nat)
    requires Tree(tree) && tip in tree && k <= tip.nHeight && |tip.Path| == tip.nHeight + 1
    ensures tip.Path[k] in tree && tip.Path[k].pprev == if k == 0 then null else tip.Path[k - 1]
    ensures k > 0 ==> tip.Path[k - 1] in tree && tip.Path[k - 1].nHeight == k - 1
  {
  }

  lemma SamePrefix(tree: set<BlockIndex>, was: seq<BlockIndex?>, tip: BlockIndex, k: nat)
    requires Tree(tree) && tip in tree && was != [] && IsPath(tree, was)
    requires k < |was| && k <= tip.nHeight && |tip.Path| == tip.nHeight + 1 && was[k] == tip.Path[k]
    ensures forall i :: 0 <= i <= k ==> was[i] == tip.Path[i]
  {
    PathEnds(tree, was[|was| - 1]);
    SharedPrefix(tree, was[|was| - 1], tip, k);
    hide Tree;
    forall i | 0 <= i <= k
      ensures was[i] == tip.Path[i]
    {
      assert was[i] == was[..k + 1][i];
      assert tip.Path[i] == tip.Path[..k + 1][i];
    }
  }

  /** The last block that two entries' paths share. */
  method LastCommonAncestor(paIn: BlockIndex, pbIn: BlockIndex, ghost tree: set<BlockIndex>) returns (pa: BlockIndex?)
    requires Tree(tree) && paIn in tree && pbIn in tree
    ensures IsFork(paIn.Path, pbIn.Path, pa)
  {
    hide Tree;
    PathEnds(tree, paIn);
    PathEnds(tree, pbIn);
    pa := paIn;
    var pb: BlockIndex? := pbIn;
    ghost var k := if paIn.nHeight < pbIn.nHeight then paIn.nHeight + 1 else pbIn.nHeight + 1;
    if paIn.nHeight > pbIn.nHeight {
      ghost var steps;
      pa, steps := paIn.GetAncestor(pbIn.nHeight, tree);
    } else if pbIn.nHeight > paIn.nHeight {
      ghost var steps;
      pb, steps := pbIn.GetAncestor(paIn.nHeight, tree);
    }
    while pa != pb && pa != null && pb != null
      invariant 0 <= k <= |paIn.Path| && k <= |pbIn.Path|
      invariant pa == if k == 0 then null else paIn.Path[k - 1]
      invariant pb == if k == 0 then null else pbIn.Path[k - 1]
      invariant forall i :: k <= i < |paIn.Path| && i < |pbIn.Path| ==> paIn.Path[i] != pbIn.Path[i]
      decreases k
    {
      Back(tree, paIn, k - 1);
      Back(tree, pbIn, k - 1);
      pa := pa.pprev;
      pb := pb.pprev;
      k := k - 1;
    }
    assert pa == pb;
    ForkAt(tree, paIn.Path, pbIn.Path, k);
  }
}
