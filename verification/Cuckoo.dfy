/** The cuckoo cache (src/cuckoocache.h): a displacement hash set with two epochs.

    The collection flags are kept as an array of booleans. */
module Cuckoo {
  import opened Common

  // ---------------------------------------------------------------- the table as values

  /** The live entries: element and epoch of every slot whose collection flag is not set. */
  ghost function Live<E>(t: seq<E>, collected: seq<bool>, epochs: seq<bool>): set<(E, bool)>
    requires |t| == |collected| == |epochs|
  {
    set i | 0 <= i < |t| && !collected[i] :: (t[i], epochs[i])
  }

  /** The slots with a live entry of the current epoch. */
  ghost function Current(collected: seq<bool>, epochs: seq<bool>): set<int>
    requires |collected| == |epochs|
  {
    set i | 0 <= i < |collected| && !collected[i] && epochs[i]
  }

  /** The slot is the first of the element's own slots that holds it. */
  ghost predicate FirstOwn<E(!new)>(t: seq<E>, locs: E -> seq<nat>, e: E, i: int) {
    exists k :: IsFirstAt(t, locs, e, i, k)
  }

  ghost predicate IsFirstAt<E(!new)>(t: seq<E>, locs: E -> seq<nat>, e: E, i: int, k: nat) {
    && k < |locs(e)| && locs(e)[k] == i && 0 <= i < |t| && t[i] == e
    && forall j :: 0 <= j < k ==> locs(e)[j] < |t| && t[locs(e)[j]] != e
  }

  /** Every element is in one of its own slots and in no other. The default element fills unused slots
      everywhere, but is live only in the first of its own slots that holds it. */
  ghost predicate Placed<E(!new)>(t: seq<E>, collected: seq<bool>, blank: E, locs: E -> seq<nat>)
    requires |t| == |collected|
  {
    && (forall i :: 0 <= i < |t| && t[i] != blank ==> i in locs(t[i]))
    && (forall i :: 0 <= i < |t| && !collected[i] && t[i] == blank ==> FirstOwn(t, locs, blank, i))
    && (forall i, j :: 0 <= i < j < |t| && t[i] == t[j] ==> t[i] == blank)
  }

  lemma FirstUnique<E(!new)>(t: seq<E>, locs: E -> seq<nat>, e: E, i: int, j: int)
    requires FirstOwn(t, locs, e, i) && FirstOwn(t, locs, e, j)
    ensures i == j
  {
    var k: nat :| IsFirstAt(t, locs, e, i, k);
    var l: nat :| IsFirstAt(t, locs, e, j, l);
  }

  /** No element is live twice. */
  lemma LiveOnce<E(!new)>(t: seq<E>, collected: seq<bool>, blank: E, locs: E -> seq<nat>, i: int, j: int)
    requires |t| == |collected| && Placed(t, collected, blank, locs) && 0 <= i < |t| && 0 <= j < |t| && t[i] == t[j]
    requires !collected[j] && (!collected[i] || FirstOwn(t, locs, t[i], i))
    ensures i == j
  {
    if t[i] == blank {
      FirstUnique(t, locs, blank, i, j);
    }
  }

  lemma LiveRevive<E>(t: seq<E>, collected: seq<bool>, epochs: seq<bool>, i: int, e: E, b: bool)
    requires |t| == |collected| == |epochs| && 0 <= i < |t| && collected[i]
    ensures Live(t[i := e], collected[i := false], epochs[i := b]) == Live(t, collected, epochs) + {(e, b)}
  {
    var t', c', p' := t[i := e], collected[i := false], epochs[i := b];
    forall x
      ensures x in Live(t', c', p') <==> x in Live(t, collected, epochs) + {(e, b)}
    {
      if x in Live(t', c', p') {
        var j :| 0 <= j < |t'| && !c'[j] && x == (t'[j], p'[j]);
        assert j != i ==> x == (t[j], epochs[j]) && !collected[j];
      }
      if x in Live(t, collected, epochs) {
        var j :| 0 <= j < |t| && !collected[j] && x == (t[j], epochs[j]);
        assert x == (t'[j], p'[j]) && !c'[j];
      }
      assert (e, b) == (t'[i], p'[i]) && !c'[i];
    }
  }

  /** Replacing a live entry whose element is nowhere else. */
  lemma LiveReplace<E>(t: seq<E>, collected: seq<bool>, epochs: seq<bool>, i: int, e: E, b: bool)
    requires |t| == |collected| == |epochs| && 0 <= i < |t| && !collected[i]
    requires forall j :: 0 <= j < |t| && j != i && !collected[j] ==> t[j] != t[i]
    ensures Live(t[i := e], collected, epochs[i := b]) == Live(t, collected, epochs) - {(t[i], epochs[i])} + {(e, b)}
  {
  }

  /** Counting after one slot changes. */
  lemma CurrentUpdate(collected: seq<bool>, epochs: seq<bool>, i: int, c: bool, b: bool)
    requires |collected| == |epochs| && 0 <= i < |epochs|
    ensures |Current(collected[i := c], epochs[i := b])| ==
            |Current(collected, epochs)| + (if !c && b then 1 else 0) - (if !collected[i] && epochs[i] then 1 else 0)
  {
    var was, is' := Current(collected, epochs), Current(collected[i := c], epochs[i := b]);
    Recount(was, is', i);
  }

  lemma Recount(was: set<int>, is': set<int>, i: int)
    requires forall j :: j != i ==> (j in is' <==> j in was)
    ensures |is'| == |was| + (if i in is' then 1 else 0) - (if i in was then 1 else 0)
  {
    forall j
      ensures j in is' - {i} <==> j in was - {i}
    {
    }
    assert is' - {i} == was - {i};
    SplitOff(was, i);
    SplitOff(is', i);
  }

  /** An element that is not live goes to one of its own slots, all earlier ones of which are live. */
  lemma PlacedPut<E(!new)>(t: seq<E>, collected: seq<bool>, blank: E, locs: E -> seq<nat>, i: int, e: E, k: nat)
    requires |t| == |collected| && Placed(t, collected, blank, locs) && 0 <= i < |t|
    requires k < |locs(e)| && locs(e)[k] == i && (e != blank ==> e !in t)
    requires forall j :: 0 <= j < k ==> locs(e)[j] < |t| && t[locs(e)[j]] != e
    requires forall j :: 0 <= j < |t| && !collected[j] ==> t[j] != e
    ensures Placed(t[i := e], collected[i := false], blank, locs)
    ensures t[i] != blank && t[i] != e ==> t[i] !in t[i := e]
  {
    var t', c' := t[i := e], collected[i := false];
    forall m | 0 <= m < |t| && !c'[m] && t'[m] == blank
      ensures FirstOwn(t', locs, blank, m)
    {
      if m == i {
        var k' := FirstSame(locs(e), k);
        assert IsFirstAt(t', locs, blank, m, k');
      } else {
        assert FirstOwn(t, locs, blank, m);
        var l :| IsFirstAt(t, locs, blank, m, l);
        assert IsFirstAt(t', locs, blank, m, l);
      }
    }
  }

  /** The first place of a member of a list. */
  lemma {:induction false} FirstSame(s: seq<nat>, k: nat) returns (f: nat)
    requires k < |s|
    ensures f <= k && s[f] == s[k] && forall j :: 0 <= j < f ==> s[j] != s[k]
  {
    f := k;
    if j :| 0 <= j < k && s[j] == s[k] {
      f := FirstSame(s, j);
    }
  }

  /** An element is in the table exactly if it is in one of its own slots. */
  lemma OwnSlots<E(!new)>(t: seq<E>, collected: seq<bool>, blank: E, locs: E -> seq<nat>, e: E)
    requires |t| == |collected| && Placed(t, collected, blank, locs) && e != blank
    requires forall k :: 0 <= k < |locs(e)| ==> locs(e)[k] < |t|
    ensures e in t <==> exists k :: 0 <= k < |locs(e)| && t[locs(e)[k]] == e
  {
  }

  /** The `k`-th slot of a list is the first free one. */
  ghost predicate IsFirstFree(collected: seq<bool>, locs: seq<nat>, loc: nat, k: nat) {
    && k < |locs| && locs[k] == loc < |collected| && collected[loc]
    && forall j :: 0 <= j < k ==> locs[j] < |collected| && !collected[locs[j]]
  }

  ghost predicate IsFirst(s: seq<nat>, x: nat, k: nat) {
    k < |s| && s[k] == x && x !in s[..k]
  }

  /** The slot after the first place of the last one, around the eight; the second slot if that is none of them. */
  ghost predicate IsNext(locs: seq<nat>, lastLoc: nat, loc: nat) {
    && |locs| == 8
    && (lastLoc !in locs ==> loc == locs[1])
    && (lastLoc in locs ==> exists k :: 0 <= k < 8 && IsFirst(locs, lastLoc, k) && loc == locs[if k == 7 then 0 else k + 1])
  }

  lemma TakesNext(locs: seq<nat>, lastLoc: nat, k: nat)
    requires |locs| == 8 && k <= 8 && lastLoc !in locs[..k] && (k < 8 ==> locs[k] == lastLoc)
    ensures IsNext(locs, lastLoc, locs[(1 + k) % 8])
  {
    assert k < 8 ==> IsFirst(locs, lastLoc, k);
    assert locs[..8] == locs;
  }

  // ---------------------------------------------------------------- the walk

  lemma NextExists(locs: seq<nat>, lastLoc: nat)
    requires |locs| == 8
    ensures exists loc :: IsNext(locs, lastLoc, loc)
  {
    var k := 0;
    while k < 8 && locs[k] != lastLoc
      invariant 0 <= k <= 8 && lastLoc !in locs[..k]
    {
      k := k + 1;
    }
    TakesNext(locs, lastLoc, k);
  }

  lemma NextUnique(locs: seq<nat>, lastLoc: nat, loc: nat, loc': nat)
    requires IsNext(locs, lastLoc, loc) && IsNext(locs, lastLoc, loc')
    ensures loc == loc'
  {
    if lastLoc in locs {
      var k :| 0 <= k < 8 && IsFirst(locs, lastLoc, k) && loc == locs[if k == 7 then 0 else k + 1];
      var l :| 0 <= l < 8 && IsFirst(locs, lastLoc, l) && loc' == locs[if l == 7 then 0 else l + 1];
    }
  }

  ghost function Following(locs: seq<nat>, lastLoc: nat): (loc: nat)
    requires |locs| == 8
    ensures IsNext(locs, lastLoc, loc)
  {
    NextExists(locs, lastLoc);
    var loc :| IsNext(locs, lastLoc, loc);
    loc
  }

  ghost predicate EightInside<E(!new)>(locs: E -> seq<nat>, size: nat) {
    forall e :: |locs(e)| == 8 && forall k :: 0 <= k < 8 ==> locs(e)[k] < size
  }

  lemma NextInside<E(!new)>(locs: E -> seq<nat>, size: nat, e: E, lastLoc: nat, loc: nat)
    requires EightInside(locs, size) && IsNext(locs(e), lastLoc, loc)
    ensures loc < size
  {
  }

  /** The table on the way, the element without a slot, and the slot it was taken from. */
  datatype Held<E> = Held(t: seq<E>, e: E, lastLoc: nat)

  /** After `n` displacements: each puts the element held into the slot of its own that follows the one it came from,
      and takes out what was there. */
  ghost function Walk<E(!new)>(t: seq<E>, locs: E -> seq<nat>, e: E, n: nat): (h: Held<E>)
    requires EightInside(locs, |t|)
    ensures |h.t| == |t|
  {
    if n == 0 then Held(t, e, |t|)
    else
      var h := Walk(t, locs, e, n - 1);
      var loc := Following(locs(h.e), h.lastLoc);
      NextInside(locs, |t|, h.e, h.lastLoc, loc);
      Held(h.t[loc := h.e], h.t[loc], loc)
  }

  lemma WalkNext<E(!new)>(t: seq<E>, locs: E -> seq<nat>, e: E, n: nat, loc: nat)
    requires EightInside(locs, |t|) && IsNext(locs(Walk(t, locs, e, n).e), Walk(t, locs, e, n).lastLoc, loc)
    ensures
      var h := Walk(t, locs, e, n);
      loc < |t| && Walk(t, locs, e, n + 1) == Held(h.t[loc := h.e], h.t[loc], loc)
  {
    var h := Walk(t, locs, e, n);
    hide IsNext;
    NextInside(locs, |t|, h.e, h.lastLoc, loc);
    NextUnique(locs(h.e), h.lastLoc, loc, Following(locs(h.e), h.lastLoc));
  }

  /** The element held after `n` displacements has a free slot. */
  ghost predicate Settles<E(!new)>(t: seq<E>, locs: E -> seq<nat>, free: seq<bool>, e: E, n: nat)
    requires EightInside(locs, |t|)
  {
    exists l :: l in locs(Walk(t, locs, e, n).e) && l < |free| && free[l]
  }

  /** No element held before `n` displacements has a free slot. */
  ghost predicate Unsettled<E(!new)>(t: seq<E>, locs: E -> seq<nat>, free: seq<bool>, e: E, n: nat)
    requires EightInside(locs, |t|)
  {
    forall m :: 0 <= m < n ==> !Settles(t, locs, free, e, m)
  }

  /** How an insertion that finds no entry of the element ends: with nothing dropped if the walk comes to a free slot
      in time, and otherwise without the element it holds then. */
  ghost predicate WalkEnds<E(!new)>(t: seq<E>, locs: E -> seq<nat>, free: seq<bool>, e: E, limit: nat,
                                    dropped: set<(E, bool)>)
    requires EightInside(locs, |t|)
  {
    if Unsettled(t, locs, free, e, limit)
    then exists epoch :: dropped == {(Walk(t, locs, e, limit).e, epoch)}
    else dropped == {}
  }

  // ---------------------------------------------------------------- the cache

  /** Forty-five percent of the size, computed in 32 bits. */
  function EpochSize(size: nat): nat {
    Max(1, 45 * size % 0x1_0000_0000 / 100)
  }

  class Cache<E(==, !new)> {
    const blank: E                    // the default-constructed element
    const hash: (nat, E) -> nat       // eight hash functions
    const size: nat
    const depthLimit: nat
    const epochSize: nat
    const table: array<E>
    const collected: array<bool>
    const epochs: array<bool>
    var epochHeuristicCounter: nat

    /** The eight slots of an element; the size is a power of two, so masking is taking the remainder. */
    function ComputeHashes(e: E): (locs: seq<nat>)
      requires size > 0
      ensures |locs| == 8 && forall k :: 0 <= k < 8 ==> locs[k] < size
    {
      seq(8, (k: nat) => hash(k, e) % size)
    }

    ghost function Locs(): E -> seq<nat>
    {
      (e: E) => if size > 0 then ComputeHashes(e) else []
    }

    ghost predicate Shape()
      reads this
    {
      && size >= 2 && depthLimit >= 1 && size == Pow2(depthLimit) && epochSize == EpochSize(size)
      && table.Length == collected.Length == epochs.Length == size
      && collected != epochs && table as object != collected && table as object != epochs
    }

    ghost predicate TableOk()
      reads this, table, collected
      requires Shape()
    {
      Placed(table[..], collected[..], blank, Locs())
    }

    ghost function LiveNow(): set<(E, bool)>
      reads this, table, collected, epochs
      requires Shape()
    {
      Live(table[..], collected[..], epochs[..])
    }

    ghost function CurrentNow(): nat
      reads this, table, collected, epochs
      requires Shape()
    {
      |Current(collected[..], epochs[..])|
    }

    ghost function Limit(): nat {
      epochSize + Max(1, epochSize / 16)
    }

    /** Each element sits in one of its own slots, once, and the current epoch stays within its limit. */
    ghost predicate Valid()
      reads this, table, collected, epochs
    {
      Shape() && TableOk() && CurrentNow() + epochHeuristicCounter <= Limit()
    }

    /** `depthLimit` is what the logarithm of the requested size gives. */
    constructor (hash: (nat, E) -> nat, blank: E, depthLimit: nat)
      requires depthLimit >= 1
      ensures Valid() && LiveNow() == {} && fresh(table) && fresh(collected) && fresh(epochs)
      ensures size == Pow2(depthLimit) && epochSize == epochHeuristicCounter == Max(1, 45 * size % 0x1_0000_0000 / 100)
      ensures this.hash == hash && this.blank == blank && this.depthLimit == depthLimit
    {
      this.hash, this.blank, this.depthLimit := hash, blank, depthLimit;
      size := Pow2(depthLimit);
      epochSize := EpochSize(Pow2(depthLimit));
      epochHeuristicCounter := EpochSize(Pow2(depthLimit));
      table := new E[Pow2(depthLimit)](_ => blank);
      collected := new bool[Pow2(depthLimit)](_ => true);
      epochs := new bool[Pow2(depthLimit)](_ => false);
      new;
      assert Current(collected[..], epochs[..]) == {};
    }

    /** The next insertion counts the current epoch and finds it too large. */
    ghost predicate MustAge()
      reads this, table, collected, epochs
      requires Shape()
    {
      epochHeuristicCounter == 0 && CurrentNow() >= epochSize
    }

    /** The next insertion can use the slot. */
    ghost predicate Reusable(loc: nat)
      reads this, table, collected, epochs
      requires Shape() && loc < size
    {
      collected[loc] || (MustAge() && !epochs[loc])
    }

    ghost function ReusableNow(): (free: seq<bool>)
      reads this, table, collected, epochs
      requires Shape()
      ensures |free| == size && forall l :: 0 <= l < size ==> free[l] == Reusable(l)
    {
      seq(size, l requires 0 <= l < size && Shape() reads this, table, collected, epochs => Reusable(l))
    }

    lemma LocsInside()
      requires size > 0
      ensures EightInside(Locs(), size) && forall e :: Locs()(e) == ComputeHashes(e)
    {
    }

    /** Ages the epochs when the current one may have grown too large: the entries of the old epoch are
        given up and those of the current one become old. */
    method EpochCheck() returns (aged: bool)
      requires Valid()
      modifies this`epochHeuristicCounter, collected, epochs
      ensures Shape() && TableOk() && CurrentNow() + 1 + epochHeuristicCounter <= Limit()
      ensures aged <==> old(MustAge())
      ensures !aged ==> collected[..] == old(collected[..]) && epochs[..] == old(epochs[..])
      ensures collected[..] == old(ReusableNow())
      ensures LiveNow() == if aged then Demoted(old(LiveNow())) else old(LiveNow())
      ensures epochHeuristicCounter ==
              if old(epochHeuristicCounter) != 0 then old(epochHeuristicCounter) - 1
              else if aged then epochSize
              else Max(1, Max(epochSize / 16, epochSize - old(CurrentNow())))
    {
      if epochHeuristicCounter != 0 {
        epochHeuristicCounter := epochHeuristicCounter - 1;
        return false;
      }
      var epochUnusedCount := CountCurrent();
      if epochUnusedCount >= epochSize {
        AgeEpochs();
        epochHeuristicCounter := epochSize;
        return true;
      }
      epochHeuristicCounter := Max(1, Max(epochSize / 16, epochSize - epochUnusedCount));
      return false;
    }

    method AgeEpochs()
      requires Shape() && TableOk()
      modifies collected, epochs
      ensures Shape() && TableOk() && CurrentNow() == 0 && LiveNow() == Demoted(old(LiveNow()))
      ensures forall j :: 0 <= j < size ==> collected[j] == (old(collected[j]) || !old(epochs[j]))
    {
      hide Live, Placed, Demoted, Current;
      for i := 0 to size
        invariant forall j :: 0 <= j < size ==>
                    epochs[j] == (old(epochs[j]) && j >= i)
                    && collected[j] == (old(collected[j]) || (j < i && !old(epochs[j])))
      {
        if epochs[i] {
          epochs[i] := false;
        } else {
          collected[i] := true;
        }
      }
      PlacedLess(table[..], old(collected[..]), collected[..], blank, Locs());
      LiveDemoted(table[..], old(collected[..]), old(epochs[..]), collected[..], epochs[..]);
      NoneCurrent(collected[..], epochs[..]);
    }

    /** The expensive scan. */
    method CountCurrent() returns (count: nat)
      requires Shape()
      ensures count == CurrentNow()
    {
      count := 0;
      for i := 0 to size
        invariant count == |Current(collected[..i], epochs[..i])|
      {
        CurrentExtend(collected[..], epochs[..], i);
        if epochs[i] && !collected[i] {
          count := count + 1;
        }
      }
      assert collected[..size] == collected[..] && epochs[..size] == epochs[..];
    }

    /** Makes slot `loc` hold a live entry. */
    method Put(loc: nat, e: E, epoch: bool)
      requires Shape() && loc < size
      modifies table, collected, epochs
      ensures table[..] == old(table[..])[loc := e] && collected[..] == old(collected[..])[loc := false]
      ensures epochs[..] == old(epochs[..])[loc := epoch]
    {
      table[loc] := e;
      collected[loc] := false;
      epochs[loc] := epoch;
    }

    /** Looks for the element in its own slots. */
    method Find(e: E) returns (found: bool, loc: nat)
      requires Shape() && TableOk()
      ensures found <==> exists k :: 0 <= k < 8 && table[ComputeHashes(e)[k]] == e
      ensures e != blank ==> (found <==> e in table[..])
      ensures found ==> loc < size && table[loc] == e && FirstOwn(table[..], Locs(), e, loc)
    {
      var locs := ComputeHashes(e);
      if e != blank {
        OwnSlots(table[..], collected[..], blank, Locs(), e);
      }
      for k := 0 to 8
        invariant forall j :: 0 <= j < k ==> table[locs[j]] != e
      {
        if table[locs[k]] == e {
          assert IsFirstAt(table[..], Locs(), e, locs[k], k);
          return true, locs[k];
        }
      }
      return false, 0;
    }

    /** Whether the element is cached; `erase` allows its slot to be reused but does not remove it. */
    method Contains(e: E, erase: bool) returns (found: bool)
      requires Valid()
      modifies collected
      ensures Valid() && (found <==> exists k :: 0 <= k < 8 && table[ComputeHashes(e)[k]] == e)
      ensures e != blank ==> (found <==> e in table[..])
      ensures !(erase && found) ==> collected[..] == old(collected[..])
      ensures erase && found ==> LiveNow() == old(LiveNow()) - {(e, true), (e, false)}
    {
      hide Live, Placed, Current;
      var loc;
      found, loc := Find(e);
      if found && erase {
        CurrentUpdate(collected[..], epochs[..], loc, true, epochs[loc]);
        PlacedLess(table[..], collected[..], collected[..][loc := true], blank, Locs());
        LiveErase(table[..], collected[..], epochs[..], blank, Locs(), loc);
        assert epochs[..][loc := epochs[loc]] == epochs[..];
        collected[loc] := true;
        assert collected[..] == old(collected[..])[loc := true];
      }
    }

    /** The slot of `e` after the one last looked at, around the eight; the second slot if that was not one of them. */
    method NextLoc(e: E, lastLoc: nat) returns (loc: nat)
      requires Shape()
      ensures loc in ComputeHashes(e) && loc < size
      ensures IsNext(ComputeHashes(e), lastLoc, loc)
    {
      var locs := ComputeHashes(e);
      var k := 0;
      hide IsNext;
      while k < 8 && locs[k] != lastLoc
        invariant 0 <= k <= 8 && lastLoc !in locs[..k]
      {
        k := k + 1;
      }
      TakesNext(locs, lastLoc, k);
      loc := locs[(1 + k) % 8];
    }

    /** A free slot of the element, if it has one. */
    method FindFree(e: E) returns (found: bool, loc: nat)
      requires Shape()
      ensures found ==> exists k :: 0 <= k < 8 && IsFirstFree(collected[..], ComputeHashes(e), loc, k)
      ensures !found ==> forall l :: l in ComputeHashes(e) ==> !collected[l]
    {
      var locs := ComputeHashes(e);
      for k := 0 to 8
        invariant forall j :: 0 <= j < k ==> !collected[locs[j]]
      {
        if collected[locs[k]] {
          assert IsFirstFree(collected[..], locs, locs[k], k);
          return true, locs[k];
        }
      }
      return false, 0;
    }

    /** Inserts an element. `base` is what was live after the epochs were checked. An element already in
        the table is revived in place; otherwise it is added with the current epoch and entries are displaced until
        one has a free slot, at most so often; the one held then is dropped. */
    method Insert(eIn: E) returns (ghost refreshed: bool, ghost base: set<(E, bool)>, ghost dropped: set<(E, bool)>)
      requires Valid()
      modifies this`epochHeuristicCounter, table, collected, epochs
      ensures Valid()
      ensures base == if old(MustAge()) then Demoted(old(LiveNow())) else old(LiveNow())
      ensures refreshed <==> old(exists k :: 0 <= k < 8 && table[ComputeHashes(eIn)[k]] == eIn)
      ensures eIn != blank ==> (refreshed <==> eIn in old(table[..]))
      ensures refreshed ==> table[..] == old(table[..]) && LiveNow() == base - {(eIn, false)} + {(eIn, true)}
      ensures !refreshed ==> LiveNow() == base + {(eIn, true)} - dropped && dropped <= base + {(eIn, true)}
      ensures !refreshed ==>
                && EightInside(Locs(), size)
                && WalkEnds(old(table[..]), Locs(), old(ReusableNow()), eIn, depthLimit, dropped)
    {
      hide Live, Placed, Current, FirstOwn, Demoted, MustAge, WalkEnds, EightInside;
      dropped := {};
      var _ := EpochCheck();
      base := LiveNow();
      var found, at := Find(eIn);
      if found {
        Revive(at);
        return true, base, {};
      }
      refreshed := false;
      NotOwn(table[..], collected[..], epochs[..], blank, Locs(), eIn);
      dropped := Displacements(eIn, base);
    }

    /** Displaces entries until one has a free slot, or too often. */
    method Displacements(eIn: E, ghost base: set<(E, bool)>) returns (ghost dropped: set<(E, bool)>)
      requires Shape() && TableOk() && (eIn != blank ==> eIn !in table[..]) && base == LiveNow()
      requires (eIn, true) !in LiveNow() && (eIn, false) !in LiveNow()
      requires CurrentNow() + 1 + epochHeuristicCounter <= Limit()
      modifies table, collected, epochs
      ensures Valid() && LiveNow() == base + {(eIn, true)} - dropped && dropped <= base + {(eIn, true)}
      ensures EightInside(Locs(), size)
      ensures WalkEnds(old(table[..]), Locs(), old(collected[..]), eIn, depthLimit, dropped)
    {
      hide Live, Placed, Current, FirstOwn, IsFirstFree, IsNext, Walk, Settles, Unsettled, EightInside;
      LocsInside();
      ghost var t, free, limit := table[..], collected[..], CurrentNow() + 1;
      WalkStart(t, Locs(), free, eIn);
      var e, lastEpoch, lastLoc := eIn, true, size;
      for depth := 0 to depthLimit
        invariant Shape() && TableOk() && (e != blank ==> e !in table[..]) && collected[..] == free
        invariant (e, true) !in LiveNow() && (e, false) !in LiveNow()
        invariant LiveNow() + {(e, lastEpoch)} == base + {(eIn, true)}
        invariant CurrentNow() + (if lastEpoch then 1 else 0) == limit && limit + epochHeuristicCounter <= Limit()
        invariant Walk(t, Locs(), eIn, depth) == Held(table[..], e, lastLoc) && Unsettled(t, Locs(), free, eIn, depth)
      {
        var isFree, loc := FindFree(e);
        SettlesIf(t, Locs(), free, eIn, depth, isFree);
        if isFree {
          Settle(loc, e, lastEpoch);
          SettledInTime(t, Locs(), free, eIn, depth, depthLimit);
          return {};
        }
        lastLoc := NextLoc(e, lastLoc);
        WalkNext(t, Locs(), eIn, depth, lastLoc);
        e, lastEpoch := Displace(lastLoc, e, lastEpoch);
      }
      dropped := {(e, lastEpoch)};
      assert LiveNow() == base + {(eIn, true)} - dropped;
    }

    /** Makes the entry found in the table live and current. */
    method Revive(loc: nat)
      requires Shape() && TableOk() && loc < size && FirstOwn(table[..], Locs(), table[loc], loc)
      modifies collected, epochs
      ensures Shape() && TableOk() && CurrentNow() <= old(CurrentNow()) + 1
      ensures LiveNow() == old(LiveNow()) - {(table[loc], false)} + {(table[loc], true)}
    {
      ghost var e := table[loc];
      CurrentUpdate(collected[..], epochs[..], loc, false, true);
      LiveRefresh(table[..], collected[..], epochs[..], blank, Locs(), loc);
      PlacedRevive(table[..], collected[..], blank, Locs(), loc);
      hide Live, Placed, Current;
      collected[loc] := false;
      epochs[loc] := true;
      assert collected[..] == old(collected[..])[loc := false] && epochs[..] == old(epochs[..])[loc := true];
    }

    /** Puts an element into a free slot of its own. */
    method Settle(loc: nat, e: E, epoch: bool)
      requires Shape() && TableOk() && (e != blank ==> e !in table[..]) && (e, true) !in LiveNow()
      requires (e, false) !in LiveNow()
      requires exists k :: 0 <= k < 8 && IsFirstFree(collected[..], ComputeHashes(e), loc, k)
      modifies table, collected, epochs
      ensures Shape() && TableOk() && LiveNow() == old(LiveNow()) + {(e, epoch)}
      ensures CurrentNow() == old(CurrentNow()) + if epoch then 1 else 0
    {
      ghost var k :| 0 <= k < 8 && IsFirstFree(collected[..], ComputeHashes(e), loc, k);
      CurrentUpdate(collected[..], epochs[..], loc, false, epoch);
      LiveRevive(table[..], collected[..], epochs[..], loc, e, epoch);
      NowhereLive(table[..], collected[..], epochs[..], e);
      PlacedPut(table[..], collected[..], blank, Locs(), loc, e, k);
      hide Live, Placed, Current;
      Put(loc, e, epoch);
    }

    /** Puts an element into an occupied slot of its own and hands back what was there. */
    method Displace(loc: nat, e: E, epoch: bool) returns (e': E, epoch': bool)
      requires Shape() && TableOk() && (e != blank ==> e !in table[..]) && (e, true) !in LiveNow()
      requires (e, false) !in LiveNow()
      requires loc in ComputeHashes(e) && loc < size && forall l :: l in ComputeHashes(e) ==> !collected[l]
      modifies table, epochs
      ensures table[..] == old(table[..])[loc := e] && epochs[..] == old(epochs[..])[loc := epoch]
      ensures e' == old(table[loc]) && epoch' == old(epochs[loc])
      ensures Shape() && TableOk() && (e' != blank ==> e' !in table[..])
      ensures (e', epoch') in old(LiveNow()) && (e', true) !in LiveNow() && (e', false) !in LiveNow()
      ensures LiveNow() == old(LiveNow()) - {(e', epoch')} + {(e, epoch)}
      ensures CurrentNow() + (if epoch' then 1 else 0) == old(CurrentNow()) + if epoch then 1 else 0
    {
      hide Live, Placed, Current;
      e', epoch' := table[loc], epochs[loc];
      ghost var k :| 0 <= k < 8 && ComputeHashes(e)[k] == loc;
      assert !collected[ComputeHashes(e)[k]];
      CurrentUpdate(collected[..], epochs[..], loc, false, epoch);
      NowhereLive(table[..], collected[..], epochs[..], e);
      Displaced(table[..], collected[..], epochs[..], blank, Locs(), loc, e, epoch);
      PlacedPut(table[..], collected[..], blank, Locs(), loc, e, k);
      table[loc] := e;
      epochs[loc] := epoch;
      assert table[..] == old(table[..])[loc := e] && epochs[..] == old(epochs[..])[loc := epoch];
      assert collected[..][loc := false] == collected[..];
    }
  }

  lemma WalkStart<E(!new)>(t: seq<E>, locs: E -> seq<nat>, free: seq<bool>, e: E)
    requires EightInside(locs, |t|)
    ensures Walk(t, locs, e, 0) == Held(t, e, |t|) && Unsettled(t, locs, free, e, 0)
  {
  }

  lemma SettlesIf<E(!new)>(t: seq<E>, locs: E -> seq<nat>, free: seq<bool>, e: E, n: nat, isFree: bool)
    requires EightInside(locs, |t|) && Unsettled(t, locs, free, e, n) && |free| == |t|
    requires isFree ==> exists k, loc: nat :: 0 <= k < 8 && IsFirstFree(free, locs(Walk(t, locs, e, n).e), loc, k)
    requires !isFree ==> forall l :: l in locs(Walk(t, locs, e, n).e) ==> l < |free| && !free[l]
    ensures if isFree then Settles(t, locs, free, e, n) else Unsettled(t, locs, free, e, n + 1)
  {
    hide Walk;
    var at := locs(Walk(t, locs, e, n).e);
    if isFree {
      var k, loc: nat :| 0 <= k < 8 && IsFirstFree(free, at, loc, k);
      assert at[k] in at;
    }
  }

  lemma SettledInTime<E(!new)>(t: seq<E>, locs: E -> seq<nat>, free: seq<bool>, e: E, n: nat, limit: nat)
    requires EightInside(locs, |t|) && n < limit && Settles(t, locs, free, e, n)
    ensures WalkEnds(t, locs, free, e, limit, {})
  {
    hide Settles;
  }

  /** An element that is nowhere live is in no live slot. */
  lemma NowhereLive<E>(t: seq<E>, c: seq<bool>, p: seq<bool>, e: E)
    requires |t| == |c| == |p| && (e, true) !in Live(t, c, p) && (e, false) !in Live(t, c, p)
    ensures forall j :: 0 <= j < |t| && !c[j] ==> t[j] != e
  {
    forall j | 0 <= j < |t| && !c[j]
      ensures t[j] != e
    {
      assert (t[j], p[j]) in Live(t, c, p);
      if p[j] {
        assert (t[j], p[j]) == (t[j], true);
      } else {
        assert (t[j], p[j]) == (t[j], false);
      }
    }
  }

  lemma NotOwn<E(!new)>(t: seq<E>, c: seq<bool>, p: seq<bool>, blank: E, locs: E -> seq<nat>, e: E)
    requires |t| == |c| == |p| && Placed(t, c, blank, locs)
    requires forall k :: 0 <= k < |locs(e)| ==> locs(e)[k] < |t| && t[locs(e)[k]] != e
    ensures (e, true) !in Live(t, c, p) && (e, false) !in Live(t, c, p) && (e != blank ==> e !in t)
  {
    forall j | 0 <= j < |t| && !c[j]
      ensures t[j] != e
    {
    }
  }

  /** The live entries after one of them made way. */
  lemma Displaced<E(!new)>(t: seq<E>, c: seq<bool>, p: seq<bool>, blank: E, locs: E -> seq<nat>, i: int, e: E, b: bool)
    requires |t| == |c| == |p| && Placed(t, c, blank, locs) && 0 <= i < |t| && !c[i] && t[i] != e
    ensures (t[i], p[i]) in Live(t, c, p)
    ensures
      var l := Live(t[i := e], c, p[i := b]);
      l == Live(t, c, p) - {(t[i], p[i])} + {(e, b)} && (t[i], true) !in l && (t[i], false) !in l
  {
    forall j | 0 <= j < |t| && j != i && !c[j]
      ensures t[j] != t[i]
    {
      if t[j] == t[i] {
        LiveOnce(t, c, blank, locs, i, j);
      }
    }
    LiveReplace(t, c, p, i, e, b);
    assert forall j :: 0 <= j < |t| && !c[j] ==> t[i := e][j] != t[i];
  }

  lemma PlacedRevive<E(!new)>(t: seq<E>, c: seq<bool>, blank: E, locs: E -> seq<nat>, i: int)
    requires |t| == |c| && Placed(t, c, blank, locs) && 0 <= i < |t| && FirstOwn(t, locs, t[i], i)
    ensures Placed(t, c[i := false], blank, locs)
  {
  }

  lemma LiveRefresh<E(!new)>(t: seq<E>, c: seq<bool>, p: seq<bool>, blank: E, locs: E -> seq<nat>, i: int)
    requires |t| == |c| == |p| && 0 <= i < |t| && Placed(t, c, blank, locs) && FirstOwn(t, locs, t[i], i)
    ensures Live(t, c[i := false], p[i := true]) == Live(t, c, p) - {(t[i], false)} + {(t[i], true)}
  {
    LiveErase(t, c, p, blank, locs, i);
    LiveRevive(t, c[i := true], p, i, t[i], true);
    assert t[i := t[i]] == t && c[i := true][i := false] == c[i := false];
    hide Live;
    var l := Live(t, c, p);
    assert l - {(t[i], true), (t[i], false)} + {(t[i], true)} == l - {(t[i], false)} + {(t[i], true)};
  }

  lemma LiveErase<E(!new)>(t: seq<E>, c: seq<bool>, p: seq<bool>, blank: E, locs: E -> seq<nat>, i: int)
    requires |t| == |c| == |p| && 0 <= i < |t| && Placed(t, c, blank, locs) && FirstOwn(t, locs, t[i], i)
    ensures Live(t, c[i := true], p) == Live(t, c, p) - {(t[i], true), (t[i], false)}
  {
    var c' := c[i := true];
    forall x
      ensures x in Live(t, c', p) <==> x in Live(t, c, p) - {(t[i], true), (t[i], false)}
    {
      if x in Live(t, c, p) && x.0 != t[i] {
        var j :| 0 <= j < |t| && !c[j] && x == (t[j], p[j]);
        assert !c'[j];
        assert x in Live(t, c', p);
      }
      assert x == (x.0, if x.1 then true else false);
      if x in Live(t, c', p) {
        var j :| 0 <= j < |t| && !c'[j] && x == (t[j], p[j]);
        assert !c[j] && j != i;
        if t[j] == t[i] {
          LiveOnce(t, c, blank, locs, i, j);
        }
        assert x in Live(t, c, p);
      }
    }
  }

  /** The entries of the current epoch, as entries of the old one. */
  ghost function Demoted<E>(live: set<(E, bool)>): set<(E, bool)> {
    set x | x in live && x.1 :: (x.0, false)
  }

  lemma NoneCurrent(c: seq<bool>, p: seq<bool>)
    requires |c| == |p| && forall j :: 0 <= j < |p| ==> !p[j]
    ensures Current(c, p) == {}
  {
  }

  lemma LiveDemoted<E>(t: seq<E>, c: seq<bool>, p: seq<bool>, c': seq<bool>, p': seq<bool>)
    requires |t| == |c| == |p| == |c'| == |p'|
    requires forall j :: 0 <= j < |t| ==> !p'[j] && c'[j] == (c[j] || !p[j])
    ensures Live(t, c', p') == Demoted(Live(t, c, p))
  {
    forall x
      ensures x in Live(t, c', p') <==> x in Demoted(Live(t, c, p))
    {
      if x in Live(t, c', p') {
        var j :| 0 <= j < |t| && !c'[j] && x == (t[j], p'[j]);
        assert (t[j], p[j]) in Live(t, c, p);
      }
      if x in Demoted(Live(t, c, p)) {
        var y :| y in Live(t, c, p) && y.1 && x == (y.0, false);
        var j :| 0 <= j < |t| && !c[j] && y == (t[j], p[j]);
        assert x == (t[j], p'[j]) && !c'[j];
      }
    }
  }

  lemma PlacedLess<E(!new)>(t: seq<E>, c: seq<bool>, c': seq<bool>, blank: E, locs: E -> seq<nat>)
    requires |t| == |c| == |c'| && Placed(t, c, blank, locs)
    requires forall j :: 0 <= j < |t| && c[j] ==> c'[j]
    ensures Placed(t, c', blank, locs)
  {
  }

  lemma CurrentExtend(collected: seq<bool>, epochs: seq<bool>, i: int)
    requires |collected| == |epochs| && 0 <= i < |epochs|
    ensures |Current(collected[..i + 1], epochs[..i + 1])| ==
            |Current(collected[..i], epochs[..i])| + if !collected[i] && epochs[i] then 1 else 0
    ensures forall a: seq<bool> :: |a| == |epochs| ==> a[..i] == a[..i + 1][..i]
  {
    var is', was := Current(collected[..i + 1], epochs[..i + 1]), Current(collected[..i], epochs[..i]);
    forall j
      ensures j in is' - {i} <==> j in was
    {
    }
    assert is' - {i} == was;
    SplitOff(is', i);
  }
}
