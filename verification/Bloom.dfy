/** The rolling Bloom filter (src/bloom.h, src/bloom.cpp). Every filter position holds a two-bit
    generation number, whose bits live in two neighbouring 64-bit words. The filter is proved to be
    exactly a plain Bloom filter over the most recently inserted keys. */
module Bloom {
  import opened Common

  type Key = seq<bv8>

  /** The hash of a key under a hash number and a tweak. */
  type HashFunc = (nat, bv32, Key) -> bv32

  // ---------------------------------------------------------------- words

  const ALL_ONES: bv64 := 0xFFFF_FFFF_FFFF_FFFF

  predicate TestBit(x: bv64, b: bv32) {
    b < 64 && (x >> b) & 1 != 0
  }

  function WriteBit(x: bv64, b: bv32, one: bool): bv64
    requires b < 64
  {
    (x & !((1 as bv64) << b)) | ((if one then 1 as bv64 else 0) << b)
  }

  lemma WriteBitExact(x: bv64, b: bv32, one: bool, j: bv32)
    requires b < 64 && j < 64
    ensures TestBit(WriteBit(x, b, one), j) == if j == b then one else TestBit(x, j)
  {
  }

  function GenerationMask(one: bool): bv64 {
    if one then ALL_ONES else 0
  }

  /** The bits that survive a wipe of the generation whose number has bits `g1` and `g2`. */
  function KeepMask(p1: bv64, p2: bv64, g1: bool, g2: bool): bv64 {
    (p1 ^ GenerationMask(g1)) | (p2 ^ GenerationMask(g2))
  }

  lemma AndBit(x: bv64, y: bv64, j: bv32)
    ensures TestBit(x & y, j) == (TestBit(x, j) && TestBit(y, j))
  {
  }

  lemma OrBit(x: bv64, y: bv64, j: bv32)
    ensures TestBit(x | y, j) == (TestBit(x, j) || TestBit(y, j))
  {
  }

  lemma XorMask(x: bv64, one: bool, j: bv32)
    requires j < 64
    ensures TestBit(x ^ GenerationMask(one), j) == (TestBit(x, j) != one)
  {
  }

  lemma KeepBit(p1: bv64, p2: bv64, g1: bool, g2: bool, j: bv32)
    requires j < 64
    ensures TestBit(KeepMask(p1, p2, g1, g2), j) == (TestBit(p1, j) != g1 || TestBit(p2, j) != g2)
  {
    XorMask(p1, g1, j);
    XorMask(p2, g2, j);
    OrBit(p1 ^ GenerationMask(g1), p2 ^ GenerationMask(g2), j);
    hide TestBit, GenerationMask;
  }

  function WipeWord(x: bv64, p1: bv64, p2: bv64, g1: bool, g2: bool): bv64 {
    x & KeepMask(p1, p2, g1, g2)
  }

  lemma WipeBit(x: bv64, p1: bv64, p2: bv64, g1: bool, g2: bool, j: bv32)
    requires j < 64
    ensures TestBit(WipeWord(x, p1, p2, g1, g2), j) == (TestBit(x, j) && (TestBit(p1, j) != g1 || TestBit(p2, j) != g2))
  {
    hide TestBit, KeepMask;
    KeepBit(p1, p2, g1, g2, j);
    AndBit(x, KeepMask(p1, p2, g1, g2), j);
  }

  // ---------------------------------------------------------------- positions

  /** A position: bit `bit` of the word pair `pair`. */
  datatype Slot = Slot(pair: nat, bit: bv32)

  ghost predicate InRange(pairs: nat, s: Slot) {
    s.pair < pairs && s.bit < 64
  }

  function WordOf(h: bv32): nat {
    Number(h >> 6)
  }

  function BitOf(h: bv32): (bit: bv32)
    ensures bit < 64
  {
    h & 0x3F
  }

  function Number(x: bv32): nat {
    x as nat
  }

  /** The position of a hash value in a table of `size` words. The lowest bit of the word index is dropped. */
  function SlotOf(h: bv32, size: nat): (s: Slot)
    requires size >= 2 && size % 2 == 0
    ensures InRange(size / 2, s)
  {
    Slot(WordOf(h) % size / 2, BitOf(h))
  }

  /** The hash value put together from a word number and a bit. */
  function HashAt(word: bv32, bit: bv32): bv32 {
    (word << 6) | bit
  }

  lemma HashParts(word: bv32, bit: bv32)
    requires word < 0x400_0000 && bit < 64
    ensures HashAt(word, bit) >> 6 == word && BitOf(HashAt(word, bit)) == bit
  {
  }

  /** Every bit of every pair of words is the position of a hash value: the one put together from the bit and the
      number of either word. */
  lemma EverySlot(word: bv32, bit: bv32, size: nat)
    requires size >= 2 && size % 2 == 0 && word < 0x400_0000 && bit < 64
    ensures SlotOf(HashAt(word, bit), size) == Slot(Number(word) % size / 2, bit)
  {
    hide Number, HashAt, BitOf;
    HashParts(word, bit);
  }

  /** Two hashes share a position exactly if they have the same bit and their words are the same or form a pair. */
  lemma SharedSlot(g: bv32, h: bv32, size: nat)
    requires size >= 2 && size % 2 == 0
    ensures
      var v, w := WordOf(g) % size, WordOf(h) % size;
      SlotOf(g, size) == SlotOf(h, size) <==>
      BitOf(g) == BitOf(h) && (v == w || (v % 2 == 0 && w == v + 1) || (w % 2 == 0 && v == w + 1))
  {
    hide WordOf, BitOf;
    SamePair(WordOf(g) % size, WordOf(h) % size);
  }

  lemma SamePair(v: nat, w: nat)
    ensures v / 2 == w / 2 <==> v == w || (v % 2 == 0 && w == v + 1) || (w % 2 == 0 && v == w + 1)
  {
  }

  /** The generation number stored at a position; zero means unset. */
  ghost function Cell(data: seq<bv64>, s: Slot): nat
    requires InRange(|data| / 2, s)
  {
    (if TestBit(data[2 * s.pair], s.bit) then 1 else 0) + (if TestBit(data[2 * s.pair + 1], s.bit) then 2 else 0)
  }

  // ---------------------------------------------------------------- what the filter should hold

  /** Everything that stays fixed between two resets. */
  datatype Params = Params(hash: HashFunc, nTweak: bv32, nHashFuncs: nat, nEntriesPerGeneration: nat, size: nat) {
    predicate Ok() {
      nEntriesPerGeneration >= 1 && size >= 2 && size % 2 == 0
    }

    function KeySlot(key: Key, n: nat): Slot
      requires Ok()
    {
      SlotOf(hash(n, nTweak, key), size)
    }

    /** One of the first `k` hash functions puts the key at this position. */
    ghost predicate HitsFirst(key: Key, k: nat, s: Slot)
      requires Ok()
    {
      exists n: nat :: n < k && KeySlot(key, n) == s
    }

    ghost predicate Hits(key: Key, s: Slot)
      requires Ok()
    {
      HitsFirst(key, nHashFuncs, s)
    }

    /** The last inserted key that is put at this position, if any. */
    ghost function LastHit(keys: seq<Key>, s: Slot): Option<nat>
      requires Ok()
      decreases |keys|
    {
      if keys == [] then None
      else if Hits(keys[|keys| - 1], s) then Some(|keys| - 1)
      else LastHit(keys[..|keys| - 1], s)
    }

    /** The running number of the generation of the `i`-th key. */
    ghost function Era(i: nat): nat
      requires Ok()
    {
      i / nEntriesPerGeneration
    }

    ghost function CurrentEra(count: nat): nat
      requires Ok()
    {
      if count == 0 then 0 else Era(count - 1)
    }

    /** What a position holds when the last key put there is the `hit`-th and the current era is `era`. */
    ghost function Stamp(hit: Option<nat>, era: nat): nat
      requires Ok()
    {
      if hit.Some? && Era(hit.value) + 2 >= era then Era(hit.value) % 3 + 1 else 0
    }

    ghost predicate Holds(data: seq<bv64>, keys: seq<Key>, era: nat)
      requires Ok() && |data| == size
    {
      forall s :: InRange(size / 2, s) ==> Cell(data, s) == Stamp(LastHit(keys, s), era)
    }

    /** The keys that the filter still knows: those of the current generation and the two before it. */
    ghost predicate Recent(count: nat, i: nat)
      requires Ok()
    {
      i < count && Era(i) + 2 >= CurrentEra(count)
    }

    /** Some recent key is put at this position. */
    ghost predicate SetByRecent(keys: seq<Key>, s: Slot)
      requires Ok()
    {
      exists i :: 0 <= i < |keys| && Recent(|keys|, i) && Hits(keys[i], s)
    }

    /** A plain Bloom filter over the recent keys answers yes. */
    ghost predicate PlainContains(keys: seq<Key>, key: Key)
      requires Ok()
    {
      forall n: nat :: n < nHashFuncs ==> SetByRecent(keys, KeySlot(key, n))
    }
  }

  lemma {:induction false} LastHitExact(p: Params, keys: seq<Key>, s: Slot)
    requires p.Ok()
    ensures
      match p.LastHit(keys, s)
      case None => forall i :: 0 <= i < |keys| ==> !p.Hits(keys[i], s)
      case Some(k) => k < |keys| && p.Hits(keys[k], s) && forall i :: k < i < |keys| ==> !p.Hits(keys[i], s)
    decreases |keys|
  {
    if keys != [] {
      LastHitExact(p, keys[..|keys| - 1], s);
    }
  }

  // ---------------------------------------------------------------- steps on the table

  /** The low and the high bit of a generation number. */
  function LowBit(nGeneration: nat): bool {
    nGeneration % 2 == 1
  }

  function HighBit(nGeneration: nat): bool {
    nGeneration / 2 == 1
  }

  /** A word pair after the wipe of a generation. */
  ghost predicate Wiped(was: seq<bv64>, now: seq<bv64>, nGeneration: nat, w: nat)
    requires |was| == |now| && 2 * w + 1 < |was|
  {
    var p1, p2 := was[2 * w], was[2 * w + 1];
    && now[2 * w] == WipeWord(p1, p1, p2, LowBit(nGeneration), HighBit(nGeneration))
    && now[2 * w + 1] == WipeWord(p2, p1, p2, LowBit(nGeneration), HighBit(nGeneration))
  }

  lemma WipeCell(was: seq<bv64>, now: seq<bv64>, nGeneration: nat, s: Slot)
    requires |was| == |now| && 1 <= nGeneration <= 3 && InRange(|was| / 2, s)
    requires Wiped(was, now, nGeneration, s.pair)
    ensures Cell(now, s) == if Cell(was, s) == nGeneration then 0 else Cell(was, s)
  {
    hide TestBit, WipeWord;
    var p1, p2 := was[2 * s.pair], was[2 * s.pair + 1];
    WipeBit(p1, p1, p2, LowBit(nGeneration), HighBit(nGeneration), s.bit);
    WipeBit(p2, p1, p2, LowBit(nGeneration), HighBit(nGeneration), s.bit);
  }

  lemma ZeroCell(data: seq<bv64>, s: Slot)
    requires InRange(|data| / 2, s) && data[2 * s.pair] == 0 && data[2 * s.pair + 1] == 0
    ensures Cell(data, s) == 0
  {
  }

  lemma UnsetCell(data: seq<bv64>, s: Slot)
    requires InRange(|data| / 2, s)
    ensures TestBit(data[2 * s.pair] | data[2 * s.pair + 1], s.bit) <==> Cell(data, s) != 0
  {
    hide TestBit;
    OrBit(data[2 * s.pair], data[2 * s.pair + 1], s.bit);
  }

  /** Clears every position that holds this generation number. */
  method Wipe(data: array<bv64>, nGeneration: nat)
    requires data.Length % 2 == 0 && 1 <= nGeneration <= 3
    modifies data
    ensures forall s :: InRange(data.Length / 2, s) ==>
                          Cell(data[..], s) == if Cell(old(data[..]), s) == nGeneration then 0 else Cell(old(data[..]), s)
  {
    hide TestBit, WipeWord, Cell;
    var p := 0;
    while p < data.Length
      invariant p <= data.Length && p % 2 == 0
      invariant forall q :: p <= q < data.Length ==> data[q] == old(data[q])
      invariant forall w :: 0 <= w < p / 2 ==> Wiped(old(data[..]), data[..], nGeneration, w)
    {
      ghost var before := data[..];
      var p1, p2 := data[p], data[p + 1];
      data[p] := WipeWord(p1, p1, p2, LowBit(nGeneration), HighBit(nGeneration));
      data[p + 1] := WipeWord(p2, p1, p2, LowBit(nGeneration), HighBit(nGeneration));
      forall w | 0 <= w < p / 2 + 1
        ensures Wiped(old(data[..]), data[..], nGeneration, w)
      {
        assert w < p / 2 ==> Wiped(old(data[..]), before, nGeneration, w);
      }
      p := p + 2;
    }
    forall s | InRange(data.Length / 2, s)
      ensures Cell(data[..], s) == if Cell(old(data[..]), s) == nGeneration then 0 else Cell(old(data[..]), s)
    {
      WipeCell(old(data[..]), data[..], nGeneration, s);
    }
  }

  lemma WriteCell(was: seq<bv64>, now: seq<bv64>, nGeneration: nat, t: Slot, s: Slot)
    requires |was| == |now| && 1 <= nGeneration <= 3 && InRange(|was| / 2, s) && InRange(|was| / 2, t)
    requires now == was[2 * t.pair := WriteBit(was[2 * t.pair], t.bit, LowBit(nGeneration))]
                       [2 * t.pair + 1 := WriteBit(was[2 * t.pair + 1], t.bit, HighBit(nGeneration))]
    ensures Cell(now, s) == if s == t then nGeneration else Cell(was, s)
  {
    hide TestBit, WriteBit;
    WriteBitExact(was[2 * t.pair], t.bit, LowBit(nGeneration), s.bit);
    WriteBitExact(was[2 * t.pair + 1], t.bit, HighBit(nGeneration), s.bit);
  }

  /** Records this generation number at one position. */
  method WriteSlot(data: array<bv64>, t: Slot, nGeneration: nat)
    requires 1 <= nGeneration <= 3 && InRange(data.Length / 2, t)
    modifies data
    ensures forall s :: InRange(data.Length / 2, s) ==> Cell(data[..], s) == if s == t then nGeneration else Cell(old(data[..]), s)
  {
    hide TestBit, WriteBit;
    data[2 * t.pair] := WriteBit(data[2 * t.pair], t.bit, LowBit(nGeneration));
    data[2 * t.pair + 1] := WriteBit(data[2 * t.pair + 1], t.bit, HighBit(nGeneration));
    forall s | InRange(data.Length / 2, s)
      ensures Cell(data[..], s) == if s == t then nGeneration else Cell(old(data[..]), s)
    {
      WriteCell(old(data[..]), data[..], nGeneration, t, s);
    }
  }

  // ---------------------------------------------------------------- the table follows the specification

  lemma EraBounds(p: Params, i: nat)
    requires p.Ok()
    ensures p.Era(i) * p.nEntriesPerGeneration <= i < (p.Era(i) + 1) * p.nEntriesPerGeneration
  {
  }

  lemma EraIs(p: Params, i: nat, era: nat)
    requires p.Ok() && era * p.nEntriesPerGeneration <= i < (era + 1) * p.nEntriesPerGeneration
    ensures p.Era(i) == era
  {
    var g, e := p.nEntriesPerGeneration, p.Era(i);
    EraBounds(p, i);
    if e < era {
      MulMonotone(e + 1, era, g);
    } else if e > era {
      MulMonotone(era + 1, e, g);
    }
  }

  /** A generation that is not full yet takes the next key. */
  lemma StillInEra(p: Params, count: nat, era: nat, used: nat)
    requires p.Ok() && count == era * p.nEntriesPerGeneration + used - 1 && 1 <= used <= p.nEntriesPerGeneration
    ensures p.Era(count) == era && p.CurrentEra(count + 1) == era
  {
    assert (era + 1) * p.nEntriesPerGeneration == era * p.nEntriesPerGeneration + p.nEntriesPerGeneration;
    EraIs(p, count, era);
  }

  /** The current generation holds between one and all of its keys, or none at the start. */
  lemma EraFill(p: Params, count: nat)
    requires p.Ok()
    ensures
      var used := count - p.CurrentEra(count) * p.nEntriesPerGeneration;
      0 <= used <= p.nEntriesPerGeneration
  {
    if count > 0 {
      EraBounds(p, count - 1);
    }
  }

  lemma EraMonotone(p: Params, i: nat, j: nat)
    requires p.Ok() && i <= j
    ensures p.Era(i) <= p.Era(j)
  {
    EraBounds(p, i);
    EraBounds(p, j);
    if p.Era(j) < p.Era(i) {
      MulMonotone(p.Era(j) + 1, p.Era(i), p.nEntriesPerGeneration);
    }
  }

  /** Wiping the number of the next generation forgets exactly the keys that drop out of the window. */
  lemma WipeHolds(p: Params, was: seq<bv64>, now: seq<bv64>, keys: seq<Key>, era: nat)
    requires p.Ok() && |was| == |now| == p.size && p.Holds(was, keys, era)
    requires |keys| == (era + 1) * p.nEntriesPerGeneration
    requires forall s :: InRange(p.size / 2, s) ==> Cell(now, s) == if Cell(was, s) == (era + 1) % 3 + 1 then 0 else Cell(was, s)
    ensures p.Holds(now, keys, era + 1)
  {
    hide Cell, Params.LastHit, Params.Hits;
    forall s | InRange(p.size / 2, s)
      ensures Cell(now, s) == p.Stamp(p.LastHit(keys, s), era + 1)
    {
      var hit := p.LastHit(keys, s);
      LastHitExact(p, keys, s);
      if hit.Some? {
        EraBounds(p, hit.value);
        if p.Era(hit.value) > era {
          MulMonotone(era + 1, p.Era(hit.value), p.nEntriesPerGeneration);
        }
        hide Params.Era;
        NextStamp(p, hit, era);
      }
    }
  }

  lemma NextStamp(p: Params, hit: Option<nat>, era: nat)
    requires p.Ok() && hit.Some? && p.Era(hit.value) <= era
    ensures p.Stamp(hit, era + 1) == if p.Stamp(hit, era) == (era + 1) % 3 + 1 then 0 else p.Stamp(hit, era)
  {
    hide Params.Era;
  }

  lemma OneMoreHit(p: Params, key: Key, n: nat, s: Slot)
    requires p.Ok()
    ensures p.HitsFirst(key, n + 1, s) <==> p.HitsFirst(key, n, s) || p.KeySlot(key, n) == s
  {
    if m: nat :| m < n + 1 && p.KeySlot(key, m) == s {
      assert m < n || m == n;
    }
  }

  /** Recording the current number at all positions of a key inserts that key. */
  lemma InsertHolds(p: Params, was: seq<bv64>, now: seq<bv64>, keys: seq<Key>, key: Key, era: nat)
    requires p.Ok() && |was| == |now| == p.size && p.Holds(was, keys, era) && p.Era(|keys|) == era
    requires forall s :: InRange(p.size / 2, s) ==> Cell(now, s) == if p.Hits(key, s) then era % 3 + 1 else Cell(was, s)
    ensures p.Holds(now, keys + [key], era)
  {
    hide Cell, Params.Hits, Params.Era;
    assert (keys + [key])[..|keys|] == keys;
  }

  /** The filter answers yes exactly when a plain Bloom filter over the recent keys does. */
  lemma ContainsExact(p: Params, data: seq<bv64>, keys: seq<Key>, key: Key)
    requires p.Ok() && |data| == p.size && p.Holds(data, keys, p.CurrentEra(|keys|))
    ensures (forall n: nat :: n < p.nHashFuncs ==> Cell(data, p.KeySlot(key, n)) != 0) <==> p.PlainContains(keys, key)
  {
    hide Cell, Params.SetByRecent;
    forall n: nat | n < p.nHashFuncs
      ensures Cell(data, p.KeySlot(key, n)) != 0 <==> p.SetByRecent(keys, p.KeySlot(key, n))
    {
      CellExact(p, data, keys, p.KeySlot(key, n));
    }
  }

  lemma CellExact(p: Params, data: seq<bv64>, keys: seq<Key>, s: Slot)
    requires p.Ok() && |data| == p.size && p.Holds(data, keys, p.CurrentEra(|keys|)) && InRange(p.size / 2, s)
    ensures Cell(data, s) != 0 <==> p.SetByRecent(keys, s)
  {
    LastHitExact(p, keys, s);
    hide Cell, Params.Hits, Params.Era, Params.LastHit;
    var hit := p.LastHit(keys, s);
    if i :| 0 <= i < |keys| && p.Recent(|keys|, i) && p.Hits(keys[i], s) {
      EraMonotone(p, i, hit.value);
    }
    if Cell(data, s) != 0 {
      assert p.Recent(|keys|, hit.value);
    }
  }

  /** Every recent key is in the plain filter, and the recent keys are the last two generations plus
      the current one. */
  lemma RecentFound(p: Params, keys: seq<Key>, i: nat)
    requires p.Ok() && p.Recent(|keys|, i)
    ensures p.PlainContains(keys, keys[i])
  {
    forall n: nat | n < p.nHashFuncs
      ensures p.SetByRecent(keys, p.KeySlot(keys[i], n))
    {
      assert p.Hits(keys[i], p.KeySlot(keys[i], n));
    }
  }

  lemma LastOnesRecent(p: Params, count: nat, i: nat)
    requires p.Ok() && i < count <= i + 2 * p.nEntriesPerGeneration
    ensures p.Recent(count, i)
  {
    var g, era := p.nEntriesPerGeneration, p.CurrentEra(count);
    EraBounds(p, i);
    EraBounds(p, count - 1);
    if p.Era(i) + 2 < era {
      assert (p.Era(i) + 3) * g == (p.Era(i) + 1) * g + 2 * g;
      MulMonotone(p.Era(i) + 3, era, g);
    }
  }

  // ---------------------------------------------------------------- the filter

  class RollingBloomFilter {
    const hash: HashFunc
    const nHashFuncs: nat
    const nEntriesPerGeneration: nat
    const data: array<bv64>
    var nEntriesThisGeneration: nat
    var nGeneration: nat
    var nTweak: bv32

    /** All keys inserted since the last reset. */
    ghost var Keys: seq<Key>

    function Fixed(): Params
      reads this
    {
      Params(hash, nTweak, nHashFuncs, nEntriesPerGeneration, data.Length)
    }

    ghost predicate Valid()
      reads this, data
    {
      var p := Fixed();
      && p.Ok()
      && var era := p.CurrentEra(|Keys|);
      && p.Holds(data[..], Keys, era)
      && nGeneration == era % 3 + 1
      && nEntriesThisGeneration == |Keys| - era * nEntriesPerGeneration
    }

    /** An empty filter for `nElements` keys. The number of hash functions and the number of word pairs
        come from the wanted false-positive rate. */
    constructor (hash: HashFunc, nElements: nat, nHashFuncs: nat, pairs: nat, tweak: bv32)
      requires nElements >= 1 && pairs >= 1
      ensures Valid() && fresh(data) && Keys == []
      ensures nEntriesPerGeneration == (nElements + 1) / 2 && this.nHashFuncs == nHashFuncs && data.Length == 2 * pairs
      ensures this.hash == hash && nTweak == tweak
    {
      this.hash, this.nHashFuncs := hash, nHashFuncs;
      nEntriesPerGeneration := (nElements + 1) / 2;
      data := new bv64[2 * pairs];
      new;
      Reset(tweak);
    }

    /** Forgets everything under a new tweak. */
    method Reset(tweak: bv32)
      requires nEntriesPerGeneration >= 1 && data.Length >= 2 && data.Length % 2 == 0
      modifies this, data
      ensures Valid() && Keys == [] && nTweak == tweak
    {
      nTweak, nEntriesThisGeneration, nGeneration := tweak, 0, 1;
      for i := 0 to data.Length
        modifies data
        invariant forall j :: 0 <= j < i ==> data[j] == 0
      {
        data[i] := 0;
      }
      Keys := [];
      forall s | InRange(data.Length / 2, s)
        ensures Cell(data[..], s) == 0
      {
        ZeroCell(data[..], s);
      }
    }

    /** Inserts a key. */
    method Insert(key: Key)
      requires Valid()
      modifies this, data
      ensures Valid() && Keys == old(Keys) + [key] && nTweak == old(nTweak)
    {
      hide Cell, Params.Holds, Params.Hits, Params.Era;
      ghost var p, era := Fixed(), Fixed().CurrentEra(|Keys|);
      EraFill(p, |Keys|);
      if nEntriesThisGeneration == nEntriesPerGeneration {
        StartGeneration(era);
        era := era + 1;
      }
      nEntriesThisGeneration := nEntriesThisGeneration + 1;
      StillInEra(p, |Keys|, era, nEntriesThisGeneration);
      ghost var was := data[..];
      WriteKey(key);
      InsertHolds(p, was, data[..], Keys, key, era);
      Keys := Keys + [key];
    }

    /** Starts the next generation and wipes what is left of the one whose number it takes. */
    method StartGeneration(ghost era: nat)
      requires Valid() && era == Fixed().CurrentEra(|Keys|) && nEntriesThisGeneration == nEntriesPerGeneration
      modifies this`nEntriesThisGeneration, this`nGeneration, data
      ensures nEntriesThisGeneration == 0 && nGeneration == (era + 1) % 3 + 1
      ensures |Keys| == (era + 1) * nEntriesPerGeneration
      ensures Fixed().Ok() && Fixed().Holds(data[..], Keys, era + 1)
    {
      hide Cell, Params.Holds;
      nEntriesThisGeneration := 0;
      nGeneration := nGeneration + 1;
      if nGeneration == 4 {
        nGeneration := 1;
      }
      ghost var was := data[..];
      assert |Keys| == (era + 1) * nEntriesPerGeneration;
      Wipe(data, nGeneration);
      WipeHolds(Fixed(), was, data[..], Keys, era);
    }

    method WriteKey(key: Key)
      requires Fixed().Ok() && 1 <= nGeneration <= 3
      modifies data
      ensures forall s :: InRange(data.Length / 2, s) ==>
                            Cell(data[..], s) == if Fixed().Hits(key, s) then nGeneration else Cell(old(data[..]), s)
    {
      hide Cell;
      for n := 0 to nHashFuncs
        invariant forall s :: InRange(data.Length / 2, s) ==>
                                Cell(data[..], s) == if Fixed().HitsFirst(key, n, s) then nGeneration else Cell(old(data[..]), s)
      {
        var t := SlotOf(hash(n, nTweak, key), data.Length);
        WriteSlot(data, t, nGeneration);
        forall s
          ensures Fixed().HitsFirst(key, n + 1, s) <==> Fixed().HitsFirst(key, n, s) || s == t
        {
          OneMoreHit(Fixed(), key, n, s);
        }
      }
    }

    /** Whether the filter may contain the key: exactly as a plain Bloom filter over the recent keys. */
    method Contains(key: Key) returns (r: bool)
      requires Valid()
      ensures r <==> Fixed().PlainContains(Keys, key)
      ensures forall i :: 0 <= i < |Keys| <= i + 2 * nEntriesPerGeneration && Keys[i] == key ==> r
    {
      hide Cell, Params.PlainContains;
      ContainsExact(Fixed(), data[..], Keys, key);
      forall i | 0 <= i < |Keys| <= i + 2 * nEntriesPerGeneration && Keys[i] == key
        ensures Fixed().PlainContains(Keys, key)
      {
        LastOnesRecent(Fixed(), |Keys|, i);
        RecentFound(Fixed(), Keys, i);
      }
      for n := 0 to nHashFuncs
        invariant forall m: nat :: m < n ==> Cell(data[..], Fixed().KeySlot(key, m)) != 0
      {
        var t := SlotOf(hash(n, nTweak, key), data.Length);
        assert t == Fixed().KeySlot(key, n);
        UnsetCell(data[..], t);
        if !TestBit(data[2 * t.pair] | data[2 * t.pair + 1], t.bit) {
          return false;
        }
      }
      return true;
    }
  }
}
