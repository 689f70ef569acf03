/** The partial Merkle tree as an object that is built, packed into bytes, unpacked and read
    (src/merkleblock.h, src/merkleblock.cpp). */
module MerkleBlock {
  import opened Common
  import opened MerkleTree

  // ---------------------------------------------------------------- packing bits into bytes

  function TestBit(b: bv8, k: nat): bool
    requires k < 8
  {
    b & (1 << k) != 0
  }

  lemma SetBit(b: bv8, k: nat, j: nat)
    requires k < 8 && j < 8
    ensures TestBit(b | (1 << k), j) == (TestBit(b, j) || j == k)
  {
  }

  lemma ZeroBit(k: nat)
    requires k < 8
    ensures !TestBit(0, k)
  {
  }

  /** Setting bit `p` of a packed list. */
  lemma SetPacked(vBytes: seq<bv8>, p: nat, q: nat)
    requires p < 8 * |vBytes| && q < 8 * |vBytes|
    ensures TestBit((vBytes[p / 8 := vBytes[p / 8] | (1 << (p % 8))])[q / 8], q % 8) == (TestBit(vBytes[q / 8], q % 8) || p == q)
  {
    SetBit(vBytes[p / 8], p % 8, q % 8);
    hide TestBit;
    assert p / 8 == q / 8 && p % 8 == q % 8 ==> p == q;
  }

  /** The bytes hold the bits, least significant first, and zeros after them. */
  ghost predicate Packs(vBytes: seq<bv8>, vBits: seq<bool>) {
    && |vBytes| == (|vBits| + 7) / 8
    && forall p :: 0 <= p < 8 * |vBytes| ==> TestBit(vBytes[p / 8], p % 8) == (p < |vBits| && vBits[p])
  }

  method Pack(vBits: seq<bool>) returns (vBytes: seq<bv8>)
    ensures Packs(vBytes, vBits)
  {
    hide TestBit;
    vBytes := seq((|vBits| + 7) / 8, _ => 0);
    forall q | 0 <= q < 8 * |vBytes|
      ensures !TestBit(vBytes[q / 8], q % 8)
    {
      ZeroBit(q % 8);
    }
    for p := 0 to |vBits|
      invariant |vBytes| == (|vBits| + 7) / 8
      invariant forall q :: 0 <= q < 8 * |vBytes| ==> TestBit(vBytes[q / 8], q % 8) == (q < p && vBits[q])
    {
      if vBits[p] {
        ghost var was := vBytes;
        vBytes := vBytes[p / 8 := vBytes[p / 8] | (1 << (p % 8))];
        forall q | 0 <= q < 8 * |vBytes|
          ensures TestBit(vBytes[q / 8], q % 8) == (q < p + 1 && vBits[q])
        {
          SetPacked(was, p, q);
        }
      }
    }
  }

  method Unpack(vBytes: seq<bv8>) returns (vBits: seq<bool>)
    ensures |vBits| == 8 * |vBytes| && forall p :: 0 <= p < |vBits| ==> vBits[p] == TestBit(vBytes[p / 8], p % 8)
  {
    vBits := [];
    for p := 0 to 8 * |vBytes|
      invariant |vBits| == p && forall q :: 0 <= q < p ==> vBits[q] == TestBit(vBytes[q / 8], q % 8)
    {
      vBits := vBits + [vBytes[p / 8] & (1 << (p % 8)) != 0];
    }
  }

  // ---------------------------------------------------------------- the Merkle root

  function HeightFrom(n: nat, height: nat): nat
    decreases n - height
  {
    if TreeWidth(n, height) > 1 then
      WidthExact(n, height, 1);
      HeightFrom(n, height + 1)
    else height
  }

  /** The height of the lowest single node. */
  function Height(n: nat): nat {
    HeightFrom(n, 0)
  }

  lemma {:induction false} HeightFromTop(n: nat, height: nat)
    requires n > 0
    ensures TreeWidth(n, HeightFrom(n, height)) == 1
    decreases n - height
  {
    if TreeWidth(n, height) > 1 {
      WidthExact(n, height, 1);
      HeightFromTop(n, height + 1);
    } else {
      WidthExact(n, height, 0);
    }
  }

  /** The top node covers all the leaves. */
  lemma TopCovers(n: nat)
    requires n > 0
    ensures TreeWidth(n, Height(n)) == 1 && First(Height(n), 0) == 0 && Last(n, Height(n), 0) == n
  {
    HeightFromTop(n, 0);
    WidthExact(n, Height(n), 1);
  }

  ghost function Root(combine: Combine, vTxid: seq<Hash>): Hash
    requires |vTxid| > 0
  {
    TopCovers(|vTxid|);
    CalcHash(combine, vTxid, Height(|vTxid|), 0)
  }

  /** The level above a list of nodes: the last one is paired with itself when it has no partner. */
  ghost function NextLevel(combine: Combine, s: seq<Hash>): seq<Hash> {
    seq((|s| + 1) / 2, i requires 0 <= i < (|s| + 1) / 2 => combine(s[2 * i], s[if 2 * i + 1 < |s| then 2 * i + 1 else 2 * i]))
  }

  /** The Merkle root as it is usually defined: halve the list until one hash is left. */
  ghost function MerkleRoot(combine: Combine, s: seq<Hash>): Hash
    requires |s| > 0
    decreases |s|
  {
    if |s| == 1 then s[0] else MerkleRoot(combine, NextLevel(combine, s))
  }

  ghost function Level(combine: Combine, vTxid: seq<Hash>, height: nat): seq<Hash> {
    if height == 0 then vTxid else NextLevel(combine, Level(combine, vTxid, height - 1))
  }

  lemma HalfWidth(n: nat, p: nat)
    requires p > 0
    ensures (n + 2 * p - 1) / (2 * p) == ((n + p - 1) / p + 1) / 2
  {
    var w, v := (n + p - 1) / p, (n + 2 * p - 1) / (2 * p);
    if v < (w + 1) / 2 {
      assert v * (2 * p) == 2 * v * p;
      CeilDiv(n, 2 * p, v);
      CeilDiv(n, p, 2 * v);
    } else if v > (w + 1) / 2 {
      var u := (w + 1) / 2;
      assert u * (2 * p) == 2 * u * p;
      CeilDiv(n, 2 * p, u);
      CeilDiv(n, p, 2 * u);
    }
  }

  /** The recursive node hash is the node of the level-by-level construction. */
  lemma {:induction false} LevelHash(combine: Combine, vTxid: seq<Hash>, height: nat)
    ensures |Level(combine, vTxid, height)| == TreeWidth(|vTxid|, height)
    ensures forall pos: nat :: pos < TreeWidth(|vTxid|, height) ==>
                            First(height, pos) < |vTxid| && CalcHash(combine, vTxid, height, pos) == Level(combine, vTxid, height)[pos]
  {
    var n := |vTxid|;
    if height > 0 {
      LevelHash(combine, vTxid, height - 1);
      HalfWidth(n, Pow2(height - 1));
    }
    hide TreeWidth, CalcHash;
    forall pos: nat | pos < TreeWidth(n, height)
      ensures First(height, pos) < n && CalcHash(combine, vTxid, height, pos) == Level(combine, vTxid, height)[pos]
    {
      WidthExact(n, height, pos);
      if height > 0 {
        CalcStep(combine, vTxid, height, pos);
        WidthExact(n, height - 1, pos * 2);
      } else {
        LeafHash(combine, vTxid, pos);
      }
    }
  }

  lemma LevelWidth(combine: Combine, vTxid: seq<Hash>, height: nat)
    requires |vTxid| > 0
    ensures |Level(combine, vTxid, height)| == TreeWidth(|vTxid|, height) > 0
    ensures height < |vTxid| || TreeWidth(|vTxid|, height) == 1
  {
    LevelHash(combine, vTxid, height);
    hide TreeWidth;
    WidthExact(|vTxid|, height, 0);
    WidthExact(|vTxid|, height, 1);
  }

  lemma LevelStep(combine: Combine, vTxid: seq<Hash>, height: nat)
    ensures Level(combine, vTxid, height + 1) == NextLevel(combine, Level(combine, vTxid, height))
  {
  }

  lemma LeafHash(combine: Combine, vTxid: seq<Hash>, pos: nat)
    requires pos < |vTxid|
    ensures First(0, pos) < |vTxid| && CalcHash(combine, vTxid, 0, pos) == vTxid[pos]
  {
  }

  lemma {:induction false} RootFrom(combine: Combine, vTxid: seq<Hash>, height: nat)
    requires |vTxid| > 0
    ensures |Level(combine, vTxid, height)| > 0 && |Level(combine, vTxid, HeightFrom(|vTxid|, height))| == 1
    ensures MerkleRoot(combine, Level(combine, vTxid, height)) == Level(combine, vTxid, HeightFrom(|vTxid|, height))[0]
    decreases |vTxid| - height
  {
    hide CalcHash, TreeWidth, Level, NextLevel, Pow2;
    LevelWidth(combine, vTxid, height);
    if TreeWidth(|vTxid|, height) > 1 {
      LevelStep(combine, vTxid, height);
      RootFrom(combine, vTxid, height + 1);
    }
  }

  /** The hash of the top node is the Merkle root of the list. */
  lemma RootIsMerkleRoot(combine: Combine, vTxid: seq<Hash>)
    requires |vTxid| > 0
    ensures Root(combine, vTxid) == MerkleRoot(combine, vTxid)
  {
    RootFrom(combine, vTxid, 0);
    LevelHash(combine, vTxid, Height(|vTxid|));
    TopCovers(|vTxid|);
  }

  // ---------------------------------------------------------------- the tree object

  method TreeHeight(n: nat) returns (nHeight: nat)
    ensures nHeight == Height(n)
  {
    nHeight := 0;
    while TreeWidth(n, nHeight) > 1
      invariant HeightFrom(n, nHeight) == Height(n)
      decreases n - nHeight
    {
      WidthExact(n, nHeight, 1);
      nHeight := nHeight + 1;
    }
  }

  /** What a full traversal from the top yields. */
  ghost function ExtractTop(combine: Combine, n: nat, vBits: seq<bool>, vHash: seq<Hash>, vnIndex: seq<nat>,
                            fBad: bool): (Hash, Cursor) {
    Extract(combine, n, vBits, vHash, Height(n), 0, Cursor(0, 0, [], vnIndex, fBad))
  }

  /** All the checks that a received tree has to pass. */
  ghost predicate Accepts(combine: Combine, n: nat, vBits: seq<bool>, vHash: seq<Hash>, vnIndex: seq<nat>, fBad: bool) {
    var c := ExtractTop(combine, n, vBits, vHash, vnIndex, fBad).1;
    && 0 < n && |vHash| <= n && |vHash| <= |vBits|
    && !c.fBad && (c.nBitsUsed + 7) / 8 == (|vBits| + 7) / 8 && c.nHashUsed == |vHash|
  }

  class PartialMerkleTree {
    const combine: Combine
    var nTransactions: nat
    var vBits: seq<bool>
    var vHash: seq<Hash>
    var fBad: bool

    /** Builds the tree for a nonempty list of ids and a mask. */
    constructor FromTxids(combine: Combine, vTxid: seq<Hash>, vMatch: seq<bool>)
      requires |vTxid| == |vMatch| > 0
      ensures this.combine == combine && nTransactions == |vTxid| && !fBad
      ensures First(Height(|vTxid|), 0) < |vTxid| && (vBits, vHash) == Build(combine, vTxid, vMatch, Height(|vTxid|), 0)
    {
      this.combine := combine;
      nTransactions, vBits, vHash, fBad := |vTxid|, [], [], false;
      new;
      var nHeight := TreeHeight(|vTxid|);
      TopCovers(|vTxid|);
      hide Build, Height, First, Last, TreeWidth;
      TraverseAndBuild(nHeight, 0, vTxid, vMatch);
      ghost var b := Build(combine, vTxid, vMatch, nHeight, 0);
      assert [] + b.0 == b.0 && [] + b.1 == b.1;
    }

    /** A tree as it arrives: any count, bytes and hashes. */
    constructor FromBytes(combine: Combine, nTransactions: nat, vBytes: seq<bv8>, vHash: seq<Hash>)
      ensures this.combine == combine && this.nTransactions == nTransactions && this.vHash == vHash && !fBad
      ensures |vBits| == 8 * |vBytes| && forall p :: 0 <= p < |vBits| ==> vBits[p] == TestBit(vBytes[p / 8], p % 8)
    {
      this.combine := combine;
      this.nTransactions, this.vHash, fBad := nTransactions, vHash, false;
      var bits := Unpack(vBytes);
      vBits := bits;
    }

    method ParentOfMatch(height: nat, pos: nat, vMatch: seq<bool>) returns (fParentOfMatch: bool)
      requires |vMatch| == nTransactions
      ensures fParentOfMatch <==> AnyMatch(vMatch, First(height, pos), Last(nTransactions, height, pos))
    {
      fParentOfMatch := false;
      var p := pos * Pow2(height);
      assert (pos + 1) * Pow2(height) == pos * Pow2(height) + Pow2(height);
      while p < (pos + 1) * Pow2(height) && p < nTransactions
        invariant First(height, pos) <= p <= (pos + 1) * Pow2(height)
        invariant fParentOfMatch <==> AnyMatch(vMatch, First(height, pos), p)
      {
        assert AnyMatch(vMatch, First(height, pos), p + 1) <==> AnyMatch(vMatch, First(height, pos), p) || vMatch[p];
        fParentOfMatch := fParentOfMatch || vMatch[p];
        p := p + 1;
      }
    }

    method TraverseAndBuild(height: nat, pos: nat, vTxid: seq<Hash>, vMatch: seq<bool>)
      requires |vTxid| == |vMatch| == nTransactions && First(height, pos) < |vTxid|
      modifies this`vBits, this`vHash
      ensures vBits == old(vBits) + Build(combine, vTxid, vMatch, height, pos).0
      ensures vHash == old(vHash) + Build(combine, vTxid, vMatch, height, pos).1
      decreases height
    {
      hide First, Last, AnyMatch, Build, TreeWidth, CalcHash;
      var fParentOfMatch := ParentOfMatch(height, pos, vMatch);
      vBits := vBits + [fParentOfMatch];
      if height == 0 || !fParentOfMatch {
        BuildLeaf(combine, vTxid, vMatch, height, pos);
        vHash := vHash + [CalcHash(combine, vTxid, height, pos)];
      } else {
        BuildStep(combine, vTxid, vMatch, height, pos);
        TraverseAndBuild(height - 1, pos * 2, vTxid, vMatch);
        if pos * 2 + 1 < TreeWidth(nTransactions, height - 1) {
          TraverseAndBuild(height - 1, pos * 2 + 1, vTxid, vMatch);
        }
      }
    }

    method TraverseAndExtract(height: nat, pos: nat, cIn: Cursor) returns (hash: Hash, c: Cursor)
      requires cIn.fBad == fBad
      modifies this`fBad
      ensures (hash, c) == Extract(combine, nTransactions, vBits, vHash, height, pos, cIn) && c.fBad == fBad
      decreases height
    {
      hide TreeWidth;
      c := cIn;
      if c.nBitsUsed >= |vBits| {
        fBad := true;
        return ZERO, c.(fBad := true);
      }
      var fParentOfMatch := vBits[c.nBitsUsed];
      c := c.(nBitsUsed := c.nBitsUsed + 1);
      if height == 0 || !fParentOfMatch {
        if c.nHashUsed >= |vHash| {
          fBad := true;
          return ZERO, c.(fBad := true);
        }
        hash := vHash[c.nHashUsed];
        c := c.(nHashUsed := c.nHashUsed + 1);
        if height == 0 && fParentOfMatch {
          c := c.(vMatch := c.vMatch + [hash], vnIndex := c.vnIndex + [pos]);
        }
        return hash, c;
      }
      var left, right;
      left, c := TraverseAndExtract(height - 1, pos * 2, c);
      if pos * 2 + 1 < TreeWidth(nTransactions, height - 1) {
        right, c := TraverseAndExtract(height - 1, pos * 2 + 1, c);
        if right == left {
          fBad := true;
          c := c.(fBad := true);
        }
      } else {
        right := left;
      }
      hash := combine(left, right);
    }

    /** Reads the matches back, appending their indices to `vnIndexIn`. The root is zero when a check fails. */
    method ExtractMatches(vnIndexIn: seq<nat>) returns (root: Hash, vMatch: seq<Hash>, vnIndex: seq<nat>, ok: bool)
      modifies this`fBad
      ensures ok <==> Accepts(combine, nTransactions, vBits, vHash, vnIndexIn, old(fBad))
      ensures
        var r := ExtractTop(combine, nTransactions, vBits, vHash, vnIndexIn, old(fBad));
        if ok then (root, vMatch, vnIndex) == (r.0, r.1.vMatch, r.1.vnIndex) else root == ZERO
    {
      vMatch, vnIndex, root := [], vnIndexIn, ZERO;
      if nTransactions == 0 || |vHash| > nTransactions || |vBits| < |vHash| {
        return ZERO, [], vnIndexIn, false;
      }
      var nHeight := TreeHeight(nTransactions);
      hide Extract, HeightFrom;
      var c;
      root, c := TraverseAndExtract(nHeight, 0, Cursor(0, 0, [], vnIndexIn, fBad));
      vMatch, vnIndex := c.vMatch, c.vnIndex;
      if fBad || (c.nBitsUsed + 7) / 8 != (|vBits| + 7) / 8 || c.nHashUsed != |vHash| {
        return ZERO, vMatch, vnIndex, false;
      }
      return root, vMatch, vnIndex, true;
    }
  }

  // ---------------------------------------------------------------- whole trips

  /** Build, send as bytes, read back: the Merkle root, and exactly the matched ids with their indices
      in order. */
  method RoundTrip(combine: Combine, vTxid: seq<Hash>, vMatch: seq<bool>)
    returns (root: Hash, ids: seq<Hash>, vnIndex: seq<nat>, ok: bool)
    requires Injective(combine) && Distinct(vTxid) && |vTxid| == |vMatch| > 0
    ensures ok && root == MerkleRoot(combine, vTxid)
    ensures (ids, vnIndex) == Matched(vTxid, vMatch, 0, |vTxid|)
  {
    var sender := new PartialMerkleTree.FromTxids(combine, vTxid, vMatch);
    var vBytes := Pack(sender.vBits);
    var receiver := new PartialMerkleTree.FromBytes(combine, sender.nTransactions, vBytes, sender.vHash);
    BuiltAccepted(combine, vTxid, vMatch, receiver.vBits);
    RootIsMerkleRoot(combine, vTxid);
    root, ids, vnIndex, ok := receiver.ExtractMatches([]);
  }

  /** A built tree passes all the checks, also when its bits are padded to whole bytes. */
  lemma BuiltAccepted(combine: Combine, vTxid: seq<Hash>, vMatch: seq<bool>, padded: seq<bool>)
    requires Injective(combine) && Distinct(vTxid) && |vTxid| == |vMatch| > 0
    requires First(Height(|vTxid|), 0) < |vTxid|
    requires
      var bits := Build(combine, vTxid, vMatch, Height(|vTxid|), 0).0;
      bits <= padded && |padded| == (|bits| + 7) / 8 * 8
    ensures
      var hashes := Build(combine, vTxid, vMatch, Height(|vTxid|), 0).1;
      var r := ExtractTop(combine, |vTxid|, padded, hashes, [], false);
      && Accepts(combine, |vTxid|, padded, hashes, [], false)
      && r.0 == Root(combine, vTxid)
      && (r.1.vMatch, r.1.vnIndex) == Matched(vTxid, vMatch, 0, |vTxid|)
  {
    var n, h := |vTxid|, Height(|vTxid|);
    var b := Build(combine, vTxid, vMatch, h, 0);
    var c := Cursor(0, 0, [], [], false);
    TopCovers(n);
    BuildSizes(combine, vTxid, vMatch, h, 0);
    hide First, Last, Height, Build, Extract;
    assert padded[0..|b.0|] == b.0 && b.1[0..|b.1|] == b.1;
    ExtractBuilt(combine, vTxid, vMatch, h, 0, padded, b.1, c);
    var m := Matched(vTxid, vMatch, 0, n);
    assert [] + m.0 == m.0 && [] + m.1 == m.1;
  }

  /** An accepted tree has nothing to spare: with more hashes, or with another byte of bits, it is refused. */
  lemma NothingToSpare(combine: Combine, n: nat, vBits: seq<bool>, vHash: seq<Hash>, vnIndex: seq<nat>, fBad: bool,
                       bits: seq<bool>, hashes: seq<Hash>)
    requires Accepts(combine, n, vBits, vHash, vnIndex, fBad) && vBits <= bits && vHash <= hashes
    requires |hashes| > |vHash| || |bits| >= |vBits| + 8
    ensures !Accepts(combine, n, bits, hashes, vnIndex, fBad)
  {
    hide Extract, Height;
    ExtractMore(combine, n, vBits, vHash, Height(n), 0, Cursor(0, 0, [], vnIndex, fBad), bits, hashes);
  }

  /** Whatever was received: if reading it yields the Merkle root of a list, and the announced number of transactions
      makes a tree of the same height, then every id returned is the entry of the list at the index returned. */
  lemma ReceivedSound(combine: Combine, vTxid: seq<Hash>, n: nat, vBits: seq<bool>, vHash: seq<Hash>, fBad: bool)
    requires Injective(combine) && |vTxid| > 0 && Height(n) == Height(|vTxid|)
    requires Accepts(combine, n, vBits, vHash, [], fBad)
    requires ExtractTop(combine, n, vBits, vHash, [], fBad).0 == MerkleRoot(combine, vTxid)
    ensures Right(vTxid, ExtractTop(combine, n, vBits, vHash, [], fBad).1)
  {
    RootIsMerkleRoot(combine, vTxid);
    TopCovers(|vTxid|);
    hide First, Height, Extract, CalcHash;
    ExtractSound(combine, vTxid, n, vBits, vHash, Height(|vTxid|), 0, Cursor(0, 0, [], [], fBad));
  }

  /** Without the same height it need not be: a tree announced with one transaction returns the root as its id. */
  lemma OtherHeight(combine: Combine, vTxid: seq<Hash>)
    requires |vTxid| > 0 && MerkleRoot(combine, vTxid) != vTxid[0]
    ensures
      var r := ExtractTop(combine, 1, [true], [MerkleRoot(combine, vTxid)], [], false);
      && Accepts(combine, 1, [true], [MerkleRoot(combine, vTxid)], [], false)
      && r.0 == MerkleRoot(combine, vTxid) && !Right(vTxid, r.1)
  {
    hide MerkleRoot;
    assert TreeWidth(1, 0) == 1;
  }

  /** The same on the object: reading a received tree against a list. */
  method ReadAgainst(combine: Combine, vTxid: seq<Hash>, nTransactions: nat, vBytes: seq<bv8>, vHash: seq<Hash>)
    returns (root: Hash, ids: seq<Hash>, vnIndex: seq<nat>, ok: bool)
    requires Injective(combine) && |vTxid| > 0
    ensures ok && root == MerkleRoot(combine, vTxid) && Height(nTransactions) == Height(|vTxid|) ==>
              |ids| == |vnIndex| && forall k :: 0 <= k < |ids| ==> vnIndex[k] < |vTxid| && ids[k] == vTxid[vnIndex[k]]
  {
    var receiver := new PartialMerkleTree.FromBytes(combine, nTransactions, vBytes, vHash);
    ghost var bits := receiver.vBits;
    root, ids, vnIndex, ok := receiver.ExtractMatches([]);
    if ok && root == MerkleRoot(combine, vTxid) && Height(nTransactions) == Height(|vTxid|) {
      ReceivedSound(combine, vTxid, nTransactions, bits, vHash, false);
    }
  }
}
