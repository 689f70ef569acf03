/** The tree of block index entries with its skip pointers (src/chain.h, src/chain.cpp). */
module BlockIndexes {

  import opened Common
  import opened SkipSteps

  /** A word without its lowest set bit. */
  function Cleared(x: bv32): bv32 { x & (x - 1) }

  predicate IsOdd(x: bv32) { x & 1 == 1 }

  function Half(x: bv32): bv32 { x >> 1 }

  /** The number that the lowest `k` binary digits of a word stand for. */
  function Digits(x: bv32, k: nat): nat {
    if k == 0 then 0 else 2 * Digits(Half(x), k - 1) + if IsOdd(x) then 1 else 0
  }

  lemma ClearedOdd(x: bv32)
    requires IsOdd(x)
    ensures !IsOdd(Cleared(x)) && Half(Cleared(x)) == Half(x)
  {
  }

  lemma ClearedEven(x: bv32)
    requires !IsOdd(x)
    ensures !IsOdd(Cleared(x)) && Half(Cleared(x)) == Cleared(Half(x))
  {
  }

  /** It is what the bitwise expression computes, digit by digit. */
  lemma {:induction false} InvertLowestOneBits(x: bv32, k: nat)
    ensures InvertLowestOne(Digits(x, k)) == Digits(Cleared(x), k)
    decreases k
  {
    hide Cleared, IsOdd, Half, InvertLowestOne;
    if k == 0 {
      InvertEven(0, 0);
    } else if IsOdd(x) {
      ClearedOdd(x);
      InvertOdd(Digits(x, k), Digits(Half(x), k - 1));
    } else {
      ClearedEven(x);
      InvertEven(Digits(x, k), Digits(Half(x), k - 1));
      InvertLowestOneBits(Half(x), k - 1);
    }
  }

  /** An entry of the block index. */
  class BlockIndex {
    var pprev: BlockIndex?
    var pskip: BlockIndex?
    var nHeight: nat

    /** The entries from the first block down to this one. */
    ghost var Path: seq<BlockIndex>

    constructor (pprev: BlockIndex?)
      ensures this.pprev == pprev && pskip == null
      ensures nHeight == if pprev == null then 0 else pprev.nHeight + 1
      ensures Path == (if pprev == null then [] else pprev.Path) + [this]
    {
      this.pprev, pskip := pprev, null;
      nHeight := if pprev == null then 0 else pprev.nHeight + 1;
      new;
      Path := (if pprev == null then [] else pprev.Path) + [this];
    }

    /** Every entry of the path but the first has its skip pointer. */
    ghost predicate Skippable()
      reads this, Path
    {
      forall i :: 1 <= i < |Path| ==> Path[i].pskip != null
    }

    /** The entry above this one at a height, or null if there is none; with all skip pointers there in so many
        steps. */
    method GetAncestor(height: int, ghost tree: set<BlockIndex>) returns (r: BlockIndex?, ghost steps: nat)
      requires Tree(tree) && this in tree
      ensures |Path| == nHeight + 1 && r == if 0 <= height <= nHeight then Path[height] else null
      ensures r == if 0 <= height <= nHeight then WalkBack(tree, this, nHeight - height) else null
      ensures Skippable() && 0 <= height <= nHeight ==> steps == Steps(nHeight, height)
    {
      hide Tree, GetSkipHeight, WalkBack;
      PathEnds(tree, this);
      if 0 <= height <= nHeight {
        PathIsWalk(tree, this, nHeight - height);
      }
      steps := 0;
      if height > nHeight || height < 0 {
        return null, 0;
      }
      var pindexWalk: BlockIndex := this;
      var heightWalk := nHeight;
      while heightWalk > height
        invariant height <= heightWalk <= nHeight && pindexWalk == Path[heightWalk]
        invariant Skippable() ==> steps + Steps(heightWalk, height) == Steps(nHeight, height)
      {
        steps := steps + 1;
        OnPath(tree, this, heightWalk);
        Links(tree, pindexWalk);
        var heightSkip := GetSkipHeight(heightWalk);
        var heightSkipPrev := GetSkipHeight(heightWalk - 1);
        if pindexWalk.pskip != null
           && (heightSkip == height || (heightSkip > height && !(heightSkipPrev < heightSkip - 2 && heightSkipPrev >= height))) {
          pindexWalk := pindexWalk.pskip;
          heightWalk := heightSkip;
        } else {
          assert pindexWalk.pprev != null;
          pindexWalk := pindexWalk.pprev;
          heightWalk := heightWalk - 1;
        }
      }
      return pindexWalk, steps;
    }

    /** Sets the skip pointer of a new entry. */
    method BuildSkip(ghost tree: set<BlockIndex>)
      requires Tree(tree) && this !in tree
      requires pprev != null ==> pprev in tree && nHeight == pprev.nHeight + 1
      modifies this`pskip
      ensures pskip == if pprev == null then old(pskip) else pprev.Path[GetSkipHeight(nHeight)]
    {
      if pprev != null {
        ghost var steps;
        pskip, steps := pprev.GetAncestor(GetSkipHeight(nHeight), tree);
      }
    }
  }

  /** An entry of a tree: its path lies in the tree and its pointers lead to entries of the path. */
  ghost predicate BlockOk(b: BlockIndex, tree: set<BlockIndex>)
    reads b, tree
  {
    && |b.Path| == b.nHeight + 1 && b.Path[b.nHeight] == b
    && (forall i :: 0 <= i <= b.nHeight ==> b.Path[i] in tree && b.Path[i].nHeight == i && b.Path[i].Path == b.Path[..i + 1])
    && b.pprev == (if b.nHeight == 0 then null else b.Path[b.nHeight - 1])
    && (b.pskip != null ==> b.nHeight > 0 && b.pskip == b.Path[GetSkipHeight(b.nHeight)])
  }

  ghost predicate Tree(tree: set<BlockIndex>)
    reads tree
  {
    forall b :: b in tree ==> BlockOk(b, tree)
  }

  lemma PathEnds(tree: set<BlockIndex>, b: BlockIndex)
    requires Tree(tree) && b in tree
    ensures |b.Path| == b.nHeight + 1 && b.Path[b.nHeight] == b
  {
  }

  lemma OnPath(tree: set<BlockIndex>, b: BlockIndex, i: nat)
    requires Tree(tree) && b in tree && i <= b.nHeight
    ensures |b.Path| == b.nHeight + 1 && b.Path[i] in tree && b.Path[i].nHeight == i
    ensures b.Path[i].Path == b.Path[..i + 1]
  {
  }

  lemma Links(tree: set<BlockIndex>, b: BlockIndex)
    requires Tree(tree) && b in tree
    ensures |b.Path| == b.nHeight + 1
    ensures b.pprev == (if b.nHeight == 0 then null else b.Path[b.nHeight - 1])
    ensures b.pskip != null ==> b.nHeight > 0 && b.pskip == b.Path[GetSkipHeight(b.nHeight)]
  {
  }

  /** Following pprev, step by step. */
  ghost function WalkBack(tree: set<BlockIndex>, b: BlockIndex, steps: nat): BlockIndex?
    requires Tree(tree) && b in tree
    reads tree
    decreases steps
  {
    if steps == 0 then b
    else if b.pprev == null then null
    else
      Links(tree, b);
      OnPath(tree, b, b.nHeight - 1);
      WalkBack(tree, b.pprev, steps - 1)
  }

  /** The path of an entry is what following pprev visits, and then null. */
  lemma {:induction false} PathIsWalk(tree: set<BlockIndex>, b: BlockIndex, steps: nat)
    requires Tree(tree) && b in tree
    ensures |b.Path| == b.nHeight + 1
    ensures WalkBack(tree, b, steps) == if steps <= b.nHeight then b.Path[b.nHeight - steps] else null
    decreases steps
  {
    hide Tree, GetSkipHeight;
    PathEnds(tree, b);
    Links(tree, b);
    if steps > 0 && b.pprev != null {
      OnPath(tree, b, b.nHeight - 1);
      PathIsWalk(tree, b.pprev, steps - 1);
    }
  }

  /** A new entry, linked into a tree. */
  method LinkBlock(ghost tree: set<BlockIndex>, pprev: BlockIndex?) returns (b: BlockIndex)
    requires Tree(tree) && (pprev != null ==> pprev in tree)
    ensures fresh(b) && Tree(tree + {b})
    ensures b.pprev == pprev && (pprev != null ==> b.pskip != null)
  {
    hide GetSkipHeight, InvertLowestOne;
    b := new BlockIndex(pprev);
    if pprev != null {
      assert BlockOk(pprev, tree);
      SkipBelow(b.nHeight);
    }
    b.BuildSkip(tree);
    if pprev != null {
      NextOk(b, pprev, tree);
    } else {
      FirstOk(b, tree);
    }
    Grown(tree, b);
  }

  lemma SkipBelow(height: nat)
    requires height > 0
    ensures GetSkipHeight(height) < height
  {
  }

  lemma StillOk(c: BlockIndex, tree: set<BlockIndex>, b: BlockIndex)
    requires BlockOk(c, tree)
    ensures BlockOk(c, tree + {b})
  {
    hide GetSkipHeight;
  }

  lemma FirstOk(b: BlockIndex, tree: set<BlockIndex>)
    requires b.pprev == b.pskip == null && b.nHeight == 0 && b.Path == [b]
    ensures BlockOk(b, tree + {b})
  {
  }

  lemma NextOk(b: BlockIndex, prev: BlockIndex, tree: set<BlockIndex>)
    requires BlockOk(prev, tree) && b.pprev == prev && b.nHeight == prev.nHeight + 1 && b.Path == prev.Path + [b]
    requires GetSkipHeight(b.nHeight) < b.nHeight && b.pskip == prev.Path[GetSkipHeight(b.nHeight)]
    ensures BlockOk(b, tree + {b})
  {
    hide GetSkipHeight;
    var h := b.nHeight;
    forall i | 0 <= i <= h
      ensures b.Path[i] in tree + {b} && b.Path[i].nHeight == i && b.Path[i].Path == b.Path[..i + 1]
    {
      if i < h {
        assert b.Path[i] == prev.Path[i];
        assert b.Path[..i + 1] == prev.Path[..i + 1];
      } else {
        assert b.Path[..h + 1] == b.Path;
      }
    }
  }

  lemma Grown(tree: set<BlockIndex>, b: BlockIndex)
    requires Tree(tree) && BlockOk(b, tree + {b})
    ensures Tree(tree + {b})
  {
    forall c | c in tree
      ensures BlockOk(c, tree + {b})
    {
      StillOk(c, tree, b);
    }
    hide BlockOk;
  }

  /** Adds a header to the index, which is a tree. A header whose hash is known changes nothing; a header
      cannot name its own hash as its parent's. */
  method AddToBlockIndex(index: map<nat, BlockIndex>, hash: nat, hashPrev: nat)
    returns (b: BlockIndex, grown: map<nat, BlockIndex>)
    requires Tree(index.Values) && hash != hashPrev
    ensures Tree(grown.Values) && hash in grown && grown[hash] == b
    ensures hash in index ==> grown == index
    ensures hash !in index ==>
              && fresh(b) && grown == index[hash := b]
              && b.pprev == (if hashPrev in index then index[hashPrev] else null) && (b.pprev != null ==> b.pskip != null)
  {
    hide Tree;
    if hash in index {
      return index[hash], index;
    }
    b := LinkBlock(index.Values, if hashPrev in index then index[hashPrev] else null);
    grown := index[hash := b];
    OneMore(index, hash, b);
  }

  lemma OneMore(index: map<nat, BlockIndex>, hash: nat, b: BlockIndex)
    requires hash !in index
    ensures index[hash := b].Values == index.Values + {b}
  {
    var grown := index[hash := b];
    forall c
      ensures c in grown.Values <==> c in index.Values + {b}
    {
      if c in index.Values {
        var h :| h in index && index[h] == c;
        assert grown[h] == c;
      }
      assert grown[hash] == b;
    }
  }

  /** Paths that share an entry share everything before it. */
  lemma SharedPrefix(tree: set<BlockIndex>, b: BlockIndex, c: BlockIndex, i: nat)
    requires Tree(tree) && b in tree && c in tree
    requires i <= b.nHeight && i <= c.nHeight && b.Path[i] == c.Path[i]
    ensures b.Path[..i + 1] == c.Path[..i + 1]
  {
    assert BlockOk(b, tree) && BlockOk(c, tree);
  }
}
