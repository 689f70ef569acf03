/** Partial Merkle trees (src/merkleblock.h, src/merkleblock.cpp) as functions of the transaction ids:
    the hash of a node, what building stores for a node, and what extracting reads back. */
module MerkleTree {
  import opened Common

  type Hash = nat

  const ZERO: Hash := 0

  type Combine = (Hash, Hash) -> Hash

  ghost predicate Injective(combine: Combine) {
    forall a, b, c, d :: combine(a, b) == combine(c, d) ==> a == c && b == d
  }

  /** The number of nodes at a height. */
  function TreeWidth(n: nat, height: nat): nat {
    (n + Pow2(height) - 1) / Pow2(height)
  }

  /** A node exists exactly if its first leaf does. */
  lemma WidthExact(n: nat, height: nat, pos: nat)
    ensures pos < TreeWidth(n, height) <==> pos * Pow2(height) < n
  {
    CeilDiv(n, Pow2(height), pos);
  }

  lemma CeilDiv(n: nat, p: nat, pos: nat)
    requires p > 0
    ensures pos < (n + p - 1) / p <==> pos * p < n
  {
    var w := (n + p - 1) / p;
    DivBounds(n + p - 1, p);
    assert (w + 1) * p == w * p + p && (pos + 1) * p == pos * p + p;
    if pos < w {
      MulMonotone(pos + 1, w, p);
    } else {
      MulMonotone(w, pos, p);
    }
  }

  lemma DivBounds(a: nat, p: nat)
    requires p > 0
    ensures a / p * p <= a < (a / p + 1) * p
  {
  }

  /** The children of a node cover its leaves. */
  lemma Children(height: nat, pos: nat)
    requires height > 0
    ensures (2 * pos) * Pow2(height - 1) == pos * Pow2(height)
    ensures (2 * pos + 1) * Pow2(height - 1) == pos * Pow2(height) + Pow2(height - 1)
    ensures (pos + 1) * Pow2(height) == (2 * pos + 2) * Pow2(height - 1)
  {
  }

  predicate HasRight(n: nat, height: nat, pos: nat)
    requires height > 0
  {
    pos * 2 + 1 < TreeWidth(n, height - 1)
  }

  lemma HasRightExact(n: nat, height: nat, pos: nat)
    requires height > 0
    ensures HasRight(n, height, pos) <==> pos * Pow2(height) + Pow2(height - 1) < n
  {
    WidthExact(n, height - 1, pos * 2 + 1);
    Children(height, pos);
  }

  /** The leaves below a node. */
  function First(height: nat, pos: nat): nat {
    pos * Pow2(height)
  }

  function Last(n: nat, height: nat, pos: nat): nat {
    if (pos + 1) * Pow2(height) < n then (pos + 1) * Pow2(height) else n
  }

  lemma ChildRanges(n: nat, height: nat, pos: nat)
    requires height > 0 && First(height, pos) < n
    ensures First(height - 1, pos * 2) == First(height, pos) < n
    ensures HasRight(n, height, pos) ==>
              First(height - 1, pos * 2 + 1) < n
              && Last(n, height - 1, pos * 2) == First(height - 1, pos * 2 + 1)
              && Last(n, height - 1, pos * 2 + 1) == Last(n, height, pos)
    ensures !HasRight(n, height, pos) ==> Last(n, height - 1, pos * 2) == Last(n, height, pos)
  {
    Children(height, pos);
    HasRightExact(n, height, pos);
    assert (pos * 2 + 1 + 1) * Pow2(height - 1) == (2 * pos + 2) * Pow2(height - 1);
    assert (pos + 1) * Pow2(height) == pos * Pow2(height) + Pow2(height - 1) + Pow2(height - 1);
  }

  lemma RangeOk(n: nat, height: nat, pos: nat)
    requires First(height, pos) < n
    ensures First(height, pos) < Last(n, height, pos) <= n
    ensures height == 0 ==> First(height, pos) == pos && Last(n, height, pos) == pos + 1
  {
    assert (pos + 1) * Pow2(height) == pos * Pow2(height) + Pow2(height);
  }

  function CalcHash(combine: Combine, vTxid: seq<Hash>, height: nat, pos: nat): Hash
    requires First(height, pos) < |vTxid|
    decreases height
  {
    if height == 0 then vTxid[pos]
    else
      ChildRanges(|vTxid|, height, pos);
      var left := CalcHash(combine, vTxid, height - 1, pos * 2);
      var right := if HasRight(|vTxid|, height, pos) then CalcHash(combine, vTxid, height - 1, pos * 2 + 1) else left;
      combine(left, right)
  }

  ghost predicate AnyMatch(vMatch: seq<bool>, lo: nat, hi: nat) {
    exists p :: lo <= p < hi && p < |vMatch| && vMatch[p]
  }

  /** What building stores for the subtree of a node. */
  ghost function Build(combine: Combine, vTxid: seq<Hash>, vMatch: seq<bool>, height: nat, pos: nat)
    : (seq<bool>, seq<Hash>)
    requires |vTxid| == |vMatch| && First(height, pos) < |vTxid|
    decreases height
  {
    var fParentOfMatch := AnyMatch(vMatch, First(height, pos), Last(|vTxid|, height, pos));
    if height == 0 || !fParentOfMatch then
      ([fParentOfMatch], [CalcHash(combine, vTxid, height, pos)])
    else
      ChildRanges(|vTxid|, height, pos);
      var l := Build(combine, vTxid, vMatch, height - 1, pos * 2);
      var r := if HasRight(|vTxid|, height, pos) then Build(combine, vTxid, vMatch, height - 1, pos * 2 + 1) else ([], []);
      ([true] + (l.0 + r.0), l.1 + r.1)
  }

  /** The state of a traversal that reads a tree back. */
  datatype Cursor = Cursor(nBitsUsed: nat, nHashUsed: nat, vMatch: seq<Hash>, vnIndex: seq<nat>, fBad: bool)

  /** Reads the subtree of a node. A missing bit or hash sets fBad and yields zero. */
  function Extract(combine: Combine, n: nat, vBits: seq<bool>, vHash: seq<Hash>, height: nat, pos: nat,
                   c: Cursor): (Hash, Cursor)
    decreases height
  {
    if c.nBitsUsed >= |vBits| then (ZERO, c.(fBad := true))
    else
      var fParentOfMatch := vBits[c.nBitsUsed];
      var c1 := c.(nBitsUsed := c.nBitsUsed + 1);
      if height == 0 || !fParentOfMatch then
        if c1.nHashUsed >= |vHash| then (ZERO, c1.(fBad := true))
        else
          var hash := vHash[c1.nHashUsed];
          var c2 := c1.(nHashUsed := c1.nHashUsed + 1);
          if height == 0 && fParentOfMatch
          then (hash, c2.(vMatch := c2.vMatch + [hash], vnIndex := c2.vnIndex + [pos]))
          else (hash, c2)
      else
        var (left, c2) := Extract(combine, n, vBits, vHash, height - 1, pos * 2, c1);
        if HasRight(n, height, pos) then
          var (right, c3) := Extract(combine, n, vBits, vHash, height - 1, pos * 2 + 1, c2);
          (combine(left, right), if right == left then c3.(fBad := true) else c3)
        else
          (combine(left, left), c2)
  }

  // ---------------------------------------------------------------- reading back what was built

  /** The matched ids in a range of leaves, in order, and their indices. */
  function Matched(vTxid: seq<Hash>, vMatch: seq<bool>, lo: nat, hi: nat): (seq<Hash>, seq<nat>)
    requires |vTxid| == |vMatch| && lo <= hi <= |vTxid|
    decreases hi
  {
    if lo == hi then ([], [])
    else
      var r := Matched(vTxid, vMatch, lo, hi - 1);
      if vMatch[hi - 1] then (r.0 + [vTxid[hi - 1]], r.1 + [hi - 1]) else r
  }

  /** The indices are exactly the matched positions, increasing, and the ids are those at the indices. */
  lemma {:induction false} MatchedExact(vTxid: seq<Hash>, vMatch: seq<bool>, lo: nat, hi: nat)
    requires |vTxid| == |vMatch| && lo <= hi <= |vTxid|
    ensures
      var r := Matched(vTxid, vMatch, lo, hi);
      && |r.0| == |r.1|
      && (forall k :: 0 <= k < |r.1| ==> lo <= r.1[k] < hi && vMatch[r.1[k]] && r.0[k] == vTxid[r.1[k]])
      && (forall p :: lo <= p < hi && vMatch[p] ==> p in r.1)
      && (forall j, k :: 0 <= j < k < |r.1| ==> r.1[j] < r.1[k])
    decreases hi
  {
    if lo < hi {
      MatchedExact(vTxid, vMatch, lo, hi - 1);
    }
  }

  lemma {:induction false} MatchedSplit(vTxid: seq<Hash>, vMatch: seq<bool>, lo: nat, mid: nat, hi: nat)
    requires |vTxid| == |vMatch| && lo <= mid <= hi <= |vTxid|
    ensures
      var a, b, c := Matched(vTxid, vMatch, lo, mid), Matched(vTxid, vMatch, mid, hi), Matched(vTxid, vMatch, lo, hi);
      c.0 == a.0 + b.0 && c.1 == a.1 + b.1
    decreases hi
  {
    if mid < hi {
      MatchedSplit(vTxid, vMatch, lo, mid, hi - 1);
    }
  }

  lemma {:induction false} MatchedNone(vTxid: seq<Hash>, vMatch: seq<bool>, lo: nat, hi: nat)
    requires |vTxid| == |vMatch| && lo <= hi <= |vTxid| && !AnyMatch(vMatch, lo, hi)
    ensures Matched(vTxid, vMatch, lo, hi) == ([], [])
    decreases hi
  {
    if lo < hi {
      assert !vMatch[hi - 1];
      assert !AnyMatch(vMatch, lo, hi - 1);
      MatchedNone(vTxid, vMatch, lo, hi - 1);
    }
  }

  lemma MatchedOne(vTxid: seq<Hash>, vMatch: seq<bool>, pos: nat)
    requires |vTxid| == |vMatch| && pos < |vTxid| && AnyMatch(vMatch, pos, pos + 1)
    ensures Matched(vTxid, vMatch, pos, pos + 1) == ([vTxid[pos]], [pos])
  {
    var p :| pos <= p < pos + 1 && vMatch[p];
    var none := Matched(vTxid, vMatch, pos, pos);
    assert none.0 + [vTxid[pos]] == [vTxid[pos]] && none.1 + [pos] == [pos];
  }

  ghost predicate Distinct(s: seq<Hash>) {
    forall i, j :: 0 <= i < j < |s| ==> s[i] != s[j]
  }

  /** With an injective pair hash, equal nodes have equal first leaves. */
  lemma {:induction false} EqualNodes(combine: Combine, vTxid: seq<Hash>, height: nat, p: nat, q: nat)
    requires Injective(combine) && First(height, p) < |vTxid| && First(height, q) < |vTxid|
    requires CalcHash(combine, vTxid, height, p) == CalcHash(combine, vTxid, height, q)
    ensures vTxid[First(height, p)] == vTxid[First(height, q)]
    decreases height
  {
    hide First, HasRight;
    if height > 0 {
      ChildRanges(|vTxid|, height, p);
      ChildRanges(|vTxid|, height, q);
      EqualNodes(combine, vTxid, height - 1, p * 2, q * 2);
    } else {
      RangeOk(|vTxid|, 0, p);
      RangeOk(|vTxid|, 0, q);
    }
  }

  /** The position of a traversal that has read everything so far. */
  ghost predicate At(bits: seq<bool>, hashes: seq<Hash>, vBits: seq<bool>, vHash: seq<Hash>, c: Cursor) {
    && c.nBitsUsed + |bits| <= |vBits| && vBits[c.nBitsUsed..c.nBitsUsed + |bits|] == bits
    && c.nHashUsed + |hashes| <= |vHash| && vHash[c.nHashUsed..c.nHashUsed + |hashes|] == hashes
  }

  lemma AtSplit(b1: seq<bool>, b2: seq<bool>, h1: seq<Hash>, h2: seq<Hash>, vBits: seq<bool>, vHash: seq<Hash>,
                c: Cursor, c': Cursor)
    requires At(b1 + b2, h1 + h2, vBits, vHash, c)
    requires c'.nBitsUsed == c.nBitsUsed + |b1| && c'.nHashUsed == c.nHashUsed + |h1|
    ensures At(b1, h1, vBits, vHash, c) && At(b2, h2, vBits, vHash, c')
  {
    var bits, hashes := vBits[c.nBitsUsed..c.nBitsUsed + |b1 + b2|], vHash[c.nHashUsed..c.nHashUsed + |h1 + h2|];
    assert bits[..|b1|] == b1 && bits[|b1|..] == b2;
    assert hashes[..|h1|] == h1 && hashes[|h1|..] == h2;
    assert vBits[c.nBitsUsed..c.nBitsUsed + |b1|] == bits[..|b1|];
    assert vBits[c'.nBitsUsed..c'.nBitsUsed + |b2|] == bits[|b1|..];
    assert vHash[c.nHashUsed..c.nHashUsed + |h1|] == hashes[..|h1|];
    assert vHash[c'.nHashUsed..c'.nHashUsed + |h2|] == hashes[|h1|..];
  }

  /** Where a traversal is after reading a subtree. */
  ghost function After(c: Cursor, b: (seq<bool>, seq<Hash>), m: (seq<Hash>, seq<nat>)): Cursor {
    Cursor(c.nBitsUsed + |b.0|, c.nHashUsed + |b.1|, c.vMatch + m.0, c.vnIndex + m.1, c.fBad)
  }

  lemma {:induction false} ExtractBuilt(combine: Combine, vTxid: seq<Hash>, vMatch: seq<bool>, height: nat, pos: nat,
                                        vBits: seq<bool>, vHash: seq<Hash>, c: Cursor)
    requires Injective(combine) && Distinct(vTxid) && |vTxid| == |vMatch| && First(height, pos) < |vTxid|
    requires
      var b := Build(combine, vTxid, vMatch, height, pos);
      At(b.0, b.1, vBits, vHash, c)
    ensures First(height, pos) <= Last(|vTxid|, height, pos)
    ensures
      var b := Build(combine, vTxid, vMatch, height, pos);
      var m := Matched(vTxid, vMatch, First(height, pos), Last(|vTxid|, height, pos));
      Extract(combine, |vTxid|, vBits, vHash, height, pos, c) ==
      (CalcHash(combine, vTxid, height, pos), After(c, b, m))
    decreases height, 1
  {
    hide First, Last, HasRight;
    var n := |vTxid|;
    var lo, hi := First(height, pos), Last(n, height, pos);
    var b := Build(combine, vTxid, vMatch, height, pos);
    assert vBits[c.nBitsUsed] == b.0[0];
    RangeOk(n, height, pos);
    if height == 0 || !AnyMatch(vMatch, lo, hi) {
      assert vHash[c.nHashUsed] == b.1[0];
      if AnyMatch(vMatch, lo, hi) {
        MatchedOne(vTxid, vMatch, pos);
      } else {
        MatchedNone(vTxid, vMatch, lo, hi);
        assert c.vMatch + [] == c.vMatch && c.vnIndex + [] == c.vnIndex;
      }
    } else {
      ExtractInner(combine, vTxid, vMatch, height, pos, vBits, vHash, c);
    }
  }

  lemma CalcStep(combine: Combine, vTxid: seq<Hash>, height: nat, pos: nat)
    requires height > 0 && First(height, pos) < |vTxid|
    ensures First(height - 1, pos * 2) < |vTxid|
    ensures HasRight(|vTxid|, height, pos) ==> First(height - 1, pos * 2 + 1) < |vTxid|
    ensures CalcHash(combine, vTxid, height, pos) ==
            (var left := CalcHash(combine, vTxid, height - 1, pos * 2);
             combine(left, if HasRight(|vTxid|, height, pos) then CalcHash(combine, vTxid, height - 1, pos * 2 + 1) else left))
  {
    ChildRanges(|vTxid|, height, pos);
    hide First, Last, HasRight;
  }

  lemma BuildLeaf(combine: Combine, vTxid: seq<Hash>, vMatch: seq<bool>, height: nat, pos: nat)
    requires |vTxid| == |vMatch| && First(height, pos) < |vTxid|
    requires height == 0 || !AnyMatch(vMatch, First(height, pos), Last(|vTxid|, height, pos))
    ensures Build(combine, vTxid, vMatch, height, pos) ==
            ([AnyMatch(vMatch, First(height, pos), Last(|vTxid|, height, pos))], [CalcHash(combine, vTxid, height, pos)])
  {
    hide First, Last, AnyMatch, CalcHash;
  }

  lemma BuildStep(combine: Combine, vTxid: seq<Hash>, vMatch: seq<bool>, height: nat, pos: nat)
    requires |vTxid| == |vMatch| && height > 0 && First(height, pos) < |vTxid|
    requires AnyMatch(vMatch, First(height, pos), Last(|vTxid|, height, pos))
    ensures First(height - 1, pos * 2) < |vTxid|
    ensures HasRight(|vTxid|, height, pos) ==> First(height - 1, pos * 2 + 1) < |vTxid|
    ensures
      var l := Build(combine, vTxid, vMatch, height - 1, pos * 2);
      var r := if HasRight(|vTxid|, height, pos) then Build(combine, vTxid, vMatch, height - 1, pos * 2 + 1) else ([], []);
      Build(combine, vTxid, vMatch, height, pos) == ([true] + (l.0 + r.0), l.1 + r.1)
  {
    ChildRanges(|vTxid|, height, pos);
    hide First, Last, HasRight;
  }

  /** Extract at an inner node whose bit is set. */
  lemma ExtractStep(combine: Combine, n: nat, vBits: seq<bool>, vHash: seq<Hash>, height: nat, pos: nat, c: Cursor,
                    left: Hash, c2: Cursor, right: Hash, c3: Cursor)
    requires height > 0 && c.nBitsUsed < |vBits| && vBits[c.nBitsUsed]
    requires Extract(combine, n, vBits, vHash, height - 1, pos * 2, c.(nBitsUsed := c.nBitsUsed + 1)) == (left, c2)
    requires HasRight(n, height, pos) ==>
               Extract(combine, n, vBits, vHash, height - 1, pos * 2 + 1, c2) == (right, c3) && left != right
    ensures Extract(combine, n, vBits, vHash, height, pos, c) ==
            if HasRight(n, height, pos) then (combine(left, right), c3) else (combine(left, left), c2)
  {
    hide HasRight;
  }

  lemma {:induction false} ExtractInner(combine: Combine, vTxid: seq<Hash>, vMatch: seq<bool>, height: nat, pos: nat,
                                        vBits: seq<bool>, vHash: seq<Hash>, c: Cursor)
    requires Injective(combine) && Distinct(vTxid) && |vTxid| == |vMatch| && First(height, pos) < |vTxid|
    requires height > 0 && AnyMatch(vMatch, First(height, pos), Last(|vTxid|, height, pos))
    requires
      var b := Build(combine, vTxid, vMatch, height, pos);
      At(b.0, b.1, vBits, vHash, c)
    requires First(height, pos) <= Last(|vTxid|, height, pos) <= |vTxid|
    ensures
      var b := Build(combine, vTxid, vMatch, height, pos);
      var m := Matched(vTxid, vMatch, First(height, pos), Last(|vTxid|, height, pos));
      Extract(combine, |vTxid|, vBits, vHash, height, pos, c) ==
      (CalcHash(combine, vTxid, height, pos), After(c, b, m))
    decreases height, 0
  {
    hide First, Last, HasRight, Build, Extract, Matched, CalcHash, AnyMatch, Distinct, Injective;
    var n := |vTxid|;
    ChildRanges(n, height, pos);
    BuildStep(combine, vTxid, vMatch, height, pos);
    CalcStep(combine, vTxid, height, pos);
    var l := Build(combine, vTxid, vMatch, height - 1, pos * 2);
    var right := HasRight(n, height, pos);
    var r := if right then Build(combine, vTxid, vMatch, height - 1, pos * 2 + 1) else ([], []);
    FirstBit(l.0 + r.0, l.1 + r.1, vBits, vHash, c);
    assert [] + (l.1 + r.1) == l.1 + r.1;
    var c1 := c.(nBitsUsed := c.nBitsUsed + 1);
    AtSplit([true], l.0 + r.0, [], l.1 + r.1, vBits, vHash, c, c1);
    var lo, hi, mid := First(height, pos), Last(n, height, pos), Last(n, height - 1, pos * 2);
    RangeOk(n, height - 1, pos * 2);
    var m1 := Matched(vTxid, vMatch, lo, mid);
    var c2 := After(c1, l, m1);
    AtSplit(l.0, r.0, l.1, r.1, vBits, vHash, c1, c2);
    hide At;
    ExtractBuilt(combine, vTxid, vMatch, height - 1, pos * 2, vBits, vHash, c1);
    var x := CalcHash(combine, vTxid, height - 1, pos * 2);
    if right {
      RangeOk(n, height - 1, pos * 2 + 1);
      ExtractBuilt(combine, vTxid, vMatch, height - 1, pos * 2 + 1, vBits, vHash, c2);
      SiblingsDiffer(combine, vTxid, height - 1, pos * 2);
      MatchedSplit(vTxid, vMatch, lo, mid, hi);
      var m2 := Matched(vTxid, vMatch, mid, hi);
      AfterTwice(c, l, r, m1, m2);
      var y := CalcHash(combine, vTxid, height - 1, pos * 2 + 1);
      ExtractStep(combine, n, vBits, vHash, height, pos, c, x, c2, y, After(c2, r, m2));
    } else {
      AfterTwice(c, l, r, m1, ([], []));
      assert m1.0 + [] == m1.0 && m1.1 + [] == m1.1;
      ExtractStep(combine, n, vBits, vHash, height, pos, c, x, c2, x, c2);
    }
  }

  lemma FirstBit(bits: seq<bool>, hashes: seq<Hash>, vBits: seq<bool>, vHash: seq<Hash>, c: Cursor)
    requires At([true] + bits, hashes, vBits, vHash, c)
    ensures c.nBitsUsed < |vBits| && vBits[c.nBitsUsed]
  {
    assert vBits[c.nBitsUsed] == vBits[c.nBitsUsed..c.nBitsUsed + |[true] + bits|][0];
  }

  lemma AfterTwice(c: Cursor, l: (seq<bool>, seq<Hash>), r: (seq<bool>, seq<Hash>), m1: (seq<Hash>, seq<nat>),
                   m2: (seq<Hash>, seq<nat>))
    ensures After(After(c.(nBitsUsed := c.nBitsUsed + 1), l, m1), r, m2) ==
            After(c, ([true] + (l.0 + r.0), l.1 + r.1), (m1.0 + m2.0, m1.1 + m2.1))
  {
    assert c.vMatch + m1.0 + m2.0 == c.vMatch + (m1.0 + m2.0);
    assert c.vnIndex + m1.1 + m2.1 == c.vnIndex + (m1.1 + m2.1);
  }

  /** Neighbouring nodes over distinct ids have different hashes. */
  lemma SiblingsDiffer(combine: Combine, vTxid: seq<Hash>, height: nat, p: nat)
    requires Injective(combine) && Distinct(vTxid) && First(height, p) < |vTxid| && First(height, p + 1) < |vTxid|
    ensures CalcHash(combine, vTxid, height, p) != CalcHash(combine, vTxid, height, p + 1)
  {
    assert First(height, p) < First(height, p + 1);
    hide First;
    if CalcHash(combine, vTxid, height, p) == CalcHash(combine, vTxid, height, p + 1) {
      EqualNodes(combine, vTxid, height, p, p + 1);
    }
  }

  /** A subtree stores at most one hash per leaf, and at least one bit per hash. */
  lemma {:induction false} BuildSizes(combine: Combine, vTxid: seq<Hash>, vMatch: seq<bool>, height: nat, pos: nat)
    requires |vTxid| == |vMatch| && First(height, pos) < |vTxid|
    ensures
      var b := Build(combine, vTxid, vMatch, height, pos);
      First(height, pos) + |b.1| <= Last(|vTxid|, height, pos) && |b.1| <= |b.0|
    decreases height
  {
    RangeOk(|vTxid|, height, pos);
    if height > 0 && AnyMatch(vMatch, First(height, pos), Last(|vTxid|, height, pos)) {
      BuildStep(combine, vTxid, vMatch, height, pos);
      ChildRanges(|vTxid|, height, pos);
      hide First, Last, HasRight, Build, AnyMatch;
      BuildSizes(combine, vTxid, vMatch, height - 1, pos * 2);
      if HasRight(|vTxid|, height, pos) {
        BuildSizes(combine, vTxid, vMatch, height - 1, pos * 2 + 1);
      }
    } else {
      hide First, Last, HasRight;
    }
  }

  // ---------------------------------------------------------------- reading anything

  /** Every match found so far is a leaf of the tree over `vTxid`, at its index. */
  ghost predicate Right(vTxid: seq<Hash>, c: Cursor) {
    && |c.vMatch| == |c.vnIndex|
    && forall k :: 0 <= k < |c.vMatch| ==> c.vnIndex[k] < |vTxid| && c.vMatch[k] == vTxid[c.vnIndex[k]]
  }

  /** Once something was wrong, it stays so. */
  lemma {:induction false} BadStays(combine: Combine, n: nat, vBits: seq<bool>, vHash: seq<Hash>, height: nat, pos: nat,
                                    c: Cursor)
    requires c.fBad
    ensures Extract(combine, n, vBits, vHash, height, pos, c).1.fBad
    decreases height
  {
    hide HasRight;
    if c.nBitsUsed < |vBits| && vBits[c.nBitsUsed] && height > 0 {
      var c1 := c.(nBitsUsed := c.nBitsUsed + 1);
      BadStays(combine, n, vBits, vHash, height - 1, pos * 2, c1);
      BadStays(combine, n, vBits, vHash, height - 1, pos * 2 + 1,
               Extract(combine, n, vBits, vHash, height - 1, pos * 2, c1).1);
    }
  }

  /** Whatever the bits and hashes are, and however many leaves the tree claims to have: if a subtree without equal
      branches yields the hash of the real node, then the matches it yields are real. */
  lemma {:induction false} ExtractSound(combine: Combine, vTxid: seq<Hash>, n: nat, vBits: seq<bool>, vHash: seq<Hash>,
                                        height: nat, pos: nat, c: Cursor)
    requires Injective(combine) && First(height, pos) < |vTxid| && Right(vTxid, c)
    requires Extract(combine, n, vBits, vHash, height, pos, c).0 == CalcHash(combine, vTxid, height, pos)
    requires !Extract(combine, n, vBits, vHash, height, pos, c).1.fBad
    ensures Right(vTxid, Extract(combine, n, vBits, vHash, height, pos, c).1)
    decreases height
  {
    hide First, HasRight, CalcHash, Extract, Right;
    if c.nBitsUsed < |vBits| && vBits[c.nBitsUsed] && height > 0 {
      CalcStep(combine, vTxid, height, pos);
      var c1 := c.(nBitsUsed := c.nBitsUsed + 1);
      var (left, c2) := Extract(combine, n, vBits, vHash, height - 1, pos * 2, c1);
      var (right, c3) := Extract(combine, n, vBits, vHash, height - 1, pos * 2 + 1, c2);
      ExtractNode(combine, n, vBits, vHash, height, pos, c);
      RightSame(vTxid, c, c1);
      ExtractSound(combine, vTxid, n, vBits, vHash, height - 1, pos * 2, c1);
      if HasRight(n, height, pos) {
        ExtractSound(combine, vTxid, n, vBits, vHash, height - 1, pos * 2 + 1, c2);
      }
    } else {
      hide Injective;
      LeafSound(combine, vTxid, n, vBits, vHash, height, pos, c);
    }
  }

  lemma LeafSound(combine: Combine, vTxid: seq<Hash>, n: nat, vBits: seq<bool>, vHash: seq<Hash>, height: nat, pos: nat,
                  c: Cursor)
    requires First(height, pos) < |vTxid| && Right(vTxid, c)
    requires !(c.nBitsUsed < |vBits| && vBits[c.nBitsUsed] && height > 0)
    requires Extract(combine, n, vBits, vHash, height, pos, c).0 == CalcHash(combine, vTxid, height, pos)
    ensures Right(vTxid, Extract(combine, n, vBits, vHash, height, pos, c).1)
  {
    if height == 0 {
      RangeOk(|vTxid|, 0, pos);
    }
  }

  lemma RightSame(vTxid: seq<Hash>, c: Cursor, d: Cursor)
    requires Right(vTxid, c) && d.vMatch == c.vMatch && d.vnIndex == c.vnIndex
    ensures Right(vTxid, d)
  {
  }

  /** A node that is read without anything wrong: its branches are read so too, and differ. */
  lemma ExtractNode(combine: Combine, n: nat, vBits: seq<bool>, vHash: seq<Hash>, height: nat, pos: nat, c: Cursor)
    requires height > 0 && c.nBitsUsed < |vBits| && vBits[c.nBitsUsed]
    requires !Extract(combine, n, vBits, vHash, height, pos, c).1.fBad
    ensures
      var (left, c2) := Extract(combine, n, vBits, vHash, height - 1, pos * 2, c.(nBitsUsed := c.nBitsUsed + 1));
      var (right, c3) := Extract(combine, n, vBits, vHash, height - 1, pos * 2 + 1, c2);
      && !c2.fBad && (HasRight(n, height, pos) ==> !c3.fBad && right != left)
      && Extract(combine, n, vBits, vHash, height, pos, c) ==
         if HasRight(n, height, pos) then (combine(left, right), c3) else (combine(left, left), c2)
  {
    hide HasRight;
    var (left, c2) := Extract(combine, n, vBits, vHash, height - 1, pos * 2, c.(nBitsUsed := c.nBitsUsed + 1));
    if c2.fBad {
      BadStays(combine, n, vBits, vHash, height - 1, pos * 2 + 1, c2);
    }
  }

  /** More bits and hashes behind those that a subtree uses change nothing. */
  lemma {:induction false} ExtractMore(combine: Combine, n: nat, vBits: seq<bool>, vHash: seq<Hash>, height: nat,
                                       pos: nat,
                                       c: Cursor, bits: seq<bool>, hashes: seq<Hash>)
    requires vBits <= bits && vHash <= hashes && !Extract(combine, n, vBits, vHash, height, pos, c).1.fBad
    ensures Extract(combine, n, bits, hashes, height, pos, c) == Extract(combine, n, vBits, vHash, height, pos, c)
    decreases height
  {
    hide HasRight;
    if c.nBitsUsed < |vBits| && vBits[c.nBitsUsed] && height > 0 {
      var c1 := c.(nBitsUsed := c.nBitsUsed + 1);
      var (left, c2) := Extract(combine, n, vBits, vHash, height - 1, pos * 2, c1);
      if c2.fBad {
        BadStays(combine, n, vBits, vHash, height - 1, pos * 2 + 1, c2);
      }
      ExtractMore(combine, n, vBits, vHash, height - 1, pos * 2, c1, bits, hashes);
      if HasRight(n, height, pos) {
        ExtractMore(combine, n, vBits, vHash, height - 1, pos * 2 + 1, c2, bits, hashes);
      }
    }
  }
}
