/** The differential coding of the positions in a request for transactions (src/blockencodings.h): every
    index is written as its distance from the one before, in 32 bits, as a compact size. */
module IndexCoding {
  import opened Common
  import opened BlockEncodings
  import Size = CompactSize

  const WORDS: nat := 0x1_0000_0000

  // ---------------------------------------------------------------- distances

  /** What the next index is counted from, in 32 bits. */
  function OffsetAt(indices: seq<Word>, i: nat): nat
    requires i <= |indices|
  {
    if i == 0 then 0 else (indices[i - 1] + 1) % WORDS
  }

  function Delta(x: Word, offset: nat): nat {
    (x - offset) % WORDS
  }

  function DeltaAt(indices: seq<Word>, i: nat): nat
    requires i < |indices|
  {
    Delta(indices[i], OffsetAt(indices, i))
  }

  ghost predicate IsEncoding(indices: seq<Word>, deltas: seq<nat>) {
    |deltas| == |indices| && forall i :: 0 <= i < |indices| ==> deltas[i] == DeltaAt(indices, i)
  }

  /** An index that can follow: it is above the one before, or the one before is the largest there is, and
      the distance is not too large to be read. */
  ghost predicate CanFollow(indices: seq<Word>, i: nat)
    requires i < |indices|
  {
    if i == 0 || indices[i - 1] == MAX32 then indices[i] <= Size.MAX_SIZE
    else indices[i - 1] < indices[i] <= indices[i - 1] + 1 + Size.MAX_SIZE
  }

  /** The lists that can be read back. */
  ghost predicate Readable(indices: seq<Word>) {
    |indices| <= Size.MAX_SIZE && forall i :: 0 <= i < |indices| ==> CanFollow(indices, i)
  }

  /** One step of decoding recovers the index exactly if it can follow; otherwise the distance is too large
      to be read, or the sum overflows. */
  lemma DeltaExact(indices: seq<Word>, i: nat)
    requires i < |indices|
    ensures
      var d, o := DeltaAt(indices, i), OffsetAt(indices, i);
      && (CanFollow(indices, i) <==> d <= Size.MAX_SIZE && d + o <= MAX32)
      && (d + o <= MAX32 ==> d + o == indices[i])
  {
  }

  lemma DeltaBack(d: nat, offset: nat)
    requires d + offset <= MAX32
    ensures Delta(d + offset, offset) == d
  {
  }

  lemma OffsetSame(s: seq<Word>, t: seq<Word>, i: nat)
    requires i <= |s| && i <= |t| && (i > 0 ==> s[i - 1] == t[i - 1])
    ensures OffsetAt(s, i) == OffsetAt(t, i)
  {
  }

  /** Lists with the same distances are the same, if one of them can be read. */
  lemma {:induction false} SameDeltas(u: seq<Word>, v: seq<Word>, n: nat)
    requires Readable(u) && n <= |u| == |v| && forall i :: 0 <= i < n ==> DeltaAt(u, i) == DeltaAt(v, i)
    ensures u[..n] == v[..n]
  {
    hide DeltaAt, OffsetAt, CanFollow;
    if n > 0 {
      SameDeltas(u, v, n - 1);
      assert n > 1 ==> u[n - 2] == u[..n - 1][n - 2] && v[n - 2] == v[..n - 1][n - 2];
      OffsetSame(u, v, n - 1);
      DeltaExact(u, n - 1);
      DeltaExact(v, n - 1);
      assert u[..n] == u[..n - 1] + [u[n - 1]] && v[..n] == v[..n - 1] + [v[n - 1]];
    }
  }

  // ---------------------------------------------------------------- the stream

  /** The written forms of some numbers, one after the other. */
  function WriteAll(ns: seq<nat>): seq<Size.Byte> {
    if ns == [] then [] else WriteAll(ns[..|ns| - 1]) + Size.Write(ns[|ns| - 1])
  }

  ghost function Deltas(indices: seq<Word>): (r: seq<nat>)
    ensures IsEncoding(indices, r)
  {
    seq(|indices|, i requires 0 <= i < |indices| => DeltaAt(indices, i))
  }

  /** A request as it is sent. */
  ghost function Written(indices: seq<Word>): seq<Size.Byte> {
    Size.Write(|indices|) + WriteAll(Deltas(indices))
  }

  lemma DeltasUnique(indices: seq<Word>, deltas: seq<nat>)
    requires IsEncoding(indices, deltas)
    ensures deltas == Deltas(indices)
  {
  }

  lemma WriteSnoc(ns: seq<nat>, n: nat)
    ensures WriteAll(ns + [n]) == WriteAll(ns) + Size.Write(n)
  {
    assert (ns + [n])[..|ns|] == ns;
  }

  method WriteRequest(indices: seq<Word>) returns (s: seq<Size.Byte>)
    ensures s == Written(indices)
  {
    hide DeltaAt, WriteAll;
    s := Size.Write(|indices|);
    ghost var deltas: seq<nat> := [];
    WriteNothing();
    for i := 0 to |indices|
      invariant |deltas| == i && forall j :: 0 <= j < i ==> deltas[j] == DeltaAt(indices, j)
      invariant s == Size.Write(|indices|) + WriteAll(deltas)
    {
      WriteSnoc(deltas, DeltaAt(indices, i));
      s := s + Size.Write(DeltaAt(indices, i));
      deltas := deltas + [DeltaAt(indices, i)];
    }
    DeltasUnique(indices, deltas);
  }

  lemma WriteNothing()
    ensures WriteAll([]) == []
  {
  }

  lemma PrefixOf(a: seq<Size.Byte>, b: seq<Size.Byte>, s: seq<Size.Byte>)
    requires a + b <= s
    ensures a <= s && b <= s[|a|..]
  {
    assert s[..|a| + |b|] == a + b;
    assert a == s[..|a|];
    assert b == s[|a|..|a| + |b|];
  }

  /** No other numbers are written at the start of a stream than some that can be read. */
  lemma {:induction false} WriteAllUnique(a: seq<nat>, b: seq<nat>, s: seq<Size.Byte>)
    requires |a| == |b| && (forall i :: 0 <= i < |a| ==> a[i] <= Size.MAX_SIZE) && WriteAll(a) <= s && WriteAll(b) <= s
    ensures a == b
  {
    hide Size.Write;
    if a != [] {
      var n := |a| - 1;
      PrefixOf(WriteAll(a[..n]), Size.Write(a[n]), s);
      PrefixOf(WriteAll(b[..n]), Size.Write(b[n]), s);
      WriteAllUnique(a[..n], b[..n], s);
      Size.WriteUnique(a[n], b[n], s[|WriteAll(a[..n])|..]);
      assert a == a[..n] + [a[n]] && b == b[..n] + [b[n]];
    }
  }

  lemma ReadableDeltas(u: seq<Word>)
    requires Readable(u)
    ensures forall i :: 0 <= i < |u| ==> Deltas(u)[i] <= Size.MAX_SIZE
  {
    hide DeltaAt, CanFollow, OffsetAt;
    forall i | 0 <= i < |u|
      ensures DeltaAt(u, i) <= Size.MAX_SIZE
    {
      DeltaExact(u, i);
    }
  }

  /** A stream starts with at most one request that can be read, and then with no other request at all. */
  lemma WrittenUnique(u: seq<Word>, v: seq<Word>, s: seq<Size.Byte>)
    requires Readable(u) && Written(u) <= s && Written(v) <= s
    ensures u == v
  {
    hide Size.Write, WriteAll, Readable, Deltas, DeltaAt;
    PrefixOf(Size.Write(|u|), WriteAll(Deltas(u)), s);
    PrefixOf(Size.Write(|v|), WriteAll(Deltas(v)), s);
    FewEnough(u);
    Size.WriteUnique(|u|, |v|, s);
    ReadableDeltas(u);
    WriteAllUnique(Deltas(u), Deltas(v), s[|Size.Write(|u|)|..]);
    SameDeltas(u, v, |u|);
    assert u[..|u|] == u && v[..|v|] == v;
  }

  lemma FewEnough(u: seq<Word>)
    requires Readable(u)
    ensures |u| <= Size.MAX_SIZE
  {
  }

  // ---------------------------------------------------------------- reading

  /** Reads the distances. */
  method ReadNumbers(s: seq<Size.Byte>, count: nat) returns (ok: bool, ns: seq<nat>, rest: seq<Size.Byte>)
    ensures ok ==> |ns| == count && (forall i :: 0 <= i < count ==> ns[i] <= Size.MAX_SIZE) && s == WriteAll(ns) + rest
    ensures !ok ==>
              forall a: seq<nat> :: |a| == count && (forall i :: 0 <= i < count ==> a[i] <= Size.MAX_SIZE) ==> !(WriteAll(a) <= s)
  {
    hide Size.Write, WriteAll;
    ns, rest := [], s;
    WriteNothing();
    for i := 0 to count
      invariant |ns| == i && (forall j :: 0 <= j < i ==> ns[j] <= Size.MAX_SIZE) && s == WriteAll(ns) + rest
    {
      var r, more := Size.Read(rest);
      if r.None? {
        NotWritten(s, ns, rest, count);
        return false, ns, rest;
      }
      if r.value > MAX32 {
        assert false;
      }
      WriteSnoc(ns, r.value);
      assert WriteAll(ns) + rest == WriteAll(ns + [r.value]) + more;
      ns, rest := ns + [r.value], more;
    }
    return true, ns, rest;
  }

  /** Numbers at the start of a stream, after some that are known: the next one follows. */
  lemma NextWritten(a: seq<nat>, ns: seq<nat>, s: seq<Size.Byte>, rest: seq<Size.Byte>)
    requires |ns| < |a| && (forall j :: 0 <= j < |ns| ==> ns[j] <= Size.MAX_SIZE) && s == WriteAll(ns) + rest
    requires WriteAll(a) <= s
    ensures Size.Write(a[|ns|]) <= rest
  {
    hide Size.Write, WriteAll;
    var k := |ns|;
    WritePrefix(a, k + 1, s);
    assert a[..k + 1] == a[..k] + [a[k]];
    WriteSnoc(a[..k], a[k]);
    PrefixOf(WriteAll(a[..k]), Size.Write(a[k]), s);
    WriteAllUnique(ns, a[..k], s);
    assert s[|WriteAll(ns)|..] == rest;
  }

  lemma NotWritten(s: seq<Size.Byte>, ns: seq<nat>, rest: seq<Size.Byte>, count: nat)
    requires |ns| < count && (forall j :: 0 <= j < |ns| ==> ns[j] <= Size.MAX_SIZE) && s == WriteAll(ns) + rest
    requires forall n: nat :: n <= Size.MAX_SIZE ==> !(Size.Write(n) <= rest)
    ensures forall a: seq<nat> :: |a| == count && (forall i :: 0 <= i < count ==> a[i] <= Size.MAX_SIZE) ==> !(WriteAll(a) <= s)
  {
    hide Size.Write, WriteAll;
    forall a: seq<nat> | |a| == count && (forall i :: 0 <= i < count ==> a[i] <= Size.MAX_SIZE) && WriteAll(a) <= s
      ensures false
    {
      NextWritten(a, ns, s, rest);
    }
  }

  lemma {:induction false} WritePrefix(a: seq<nat>, k: nat, s: seq<Size.Byte>)
    requires k <= |a| && WriteAll(a) <= s
    ensures WriteAll(a[..k]) <= s
    decreases |a|
  {
    if k < |a| {
      var n := |a| - 1;
      PrefixOf(WriteAll(a[..n]), Size.Write(a[n]), s);
      WritePrefix(a[..n], k, s);
      assert a[..n][..k] == a[..k];
    } else {
      assert a[..k] == a;
    }
  }

  /** The indices whose distances have been added up so far. */
  ghost predicate DecodedTo(deltas: seq<nat>, indices: seq<Word>, n: nat) {
    n <= |deltas| && n == |indices| && forall i :: 0 <= i < n ==> deltas[i] + OffsetAt(indices, i) == indices[i]
  }

  /** Adds the distances up, unless a sum needs more than 32 bits. */
  method DecodeIndices(deltas: seq<nat>) returns (ok: bool, indices: seq<Word>)
    ensures ok ==> DecodedTo(deltas, indices, |deltas|)
    ensures !ok ==>
              |indices| < |deltas| && DecodedTo(deltas, indices, |indices|) && deltas[|indices|] + OffsetAt(indices, |indices|) > MAX32
  {
    indices := [];
    var offset := 0;
    for i := 0 to |deltas|
      invariant DecodedTo(deltas, indices, i) && offset == OffsetAt(indices, i)
    {
      if deltas[i] + offset > MAX32 {
        return false, indices;
      }
      indices := indices + [deltas[i] + offset];
      offset := OffsetAt(indices, i + 1);
    }
    return true, indices;
  }

  /** What was added up has these distances, and can be read. */
  lemma DecodedEncodes(deltas: seq<nat>, indices: seq<Word>)
    requires DecodedTo(deltas, indices, |deltas|) && |deltas| <= Size.MAX_SIZE
    requires forall i :: 0 <= i < |deltas| ==> deltas[i] <= Size.MAX_SIZE
    ensures IsEncoding(indices, deltas) && Readable(indices)
  {
    hide OffsetAt, CanFollow;
    forall i | 0 <= i < |deltas|
      ensures deltas[i] == DeltaAt(indices, i) && CanFollow(indices, i)
    {
      DeltaBack(deltas[i], OffsetAt(indices, i));
      DeltaExact(indices, i);
    }
  }

  /** Distances that do not add up belong to no list that can be read. */
  lemma {:induction false} DecodedSame(deltas: seq<nat>, indices: seq<Word>, out: seq<Word>)
    requires IsEncoding(indices, deltas) && Readable(indices) && DecodedTo(deltas, out, |out|)
    ensures out == indices[..|out|]
    decreases |out|
  {
    hide DeltaAt, OffsetAt, CanFollow;
    if out != [] {
      var n := |out| - 1;
      forall i | 0 <= i < n
        ensures OffsetAt(out[..n], i) == OffsetAt(out, i)
      {
        OffsetSame(out[..n], out, i);
      }
      DecodedSame(deltas, indices, out[..n]);
      assert n > 0 ==> out[n - 1] == out[..n][n - 1] && indices[n - 1] == indices[..n][n - 1];
      OffsetSame(out, indices, n);
      DeltaExact(indices, n);
      assert out == out[..n] + [out[n]];
    }
  }

  /** Reads a request. It succeeds exactly on what was written for a list that can be read. */
  method ReadRequest(s: seq<Size.Byte>) returns (r: Option<seq<Word>>, rest: seq<Size.Byte>)
    ensures r.Some? ==> Readable(r.value) && s == Written(r.value) + rest
    ensures r.None? ==> forall indices: seq<Word> :: Readable(indices) ==> !(Written(indices) <= s)
  {
    hide Size.Write, WriteAll, Readable, Deltas, DeltaAt;
    rest := s;
    var count, more := Size.Read(s);
    if count.None? {
      NoCount(s);
      return None, rest;
    }
    var ok, ns, end := ReadNumbers(more, count.value);
    if !ok {
      NoNumbers(s, count.value, more);
      return None, rest;
    }
    var indices;
    ok, indices := DecodeIndices(ns);
    if !ok {
      NoSum(s, count.value, more, ns, end, indices);
      return None, rest;
    }
    DecodedEncodes(ns, indices);
    DeltasUnique(indices, ns);
    assert Size.Write(count.value) + (WriteAll(ns) + end) == Size.Write(count.value) + WriteAll(ns) + end;
    return Some(indices), end;
  }

  lemma NoCount(s: seq<Size.Byte>)
    requires forall n: nat :: n <= Size.MAX_SIZE ==> !(Size.Write(n) <= s)
    ensures forall indices: seq<Word> :: Readable(indices) ==> !(Written(indices) <= s)
  {
    hide Size.Write, WriteAll, Deltas;
    forall indices: seq<Word> | Readable(indices) && Written(indices) <= s
      ensures false
    {
      PrefixOf(Size.Write(|indices|), WriteAll(Deltas(indices)), s);
    }
  }

  /** What a request that starts a stream says about the parts of the stream. */
  lemma Parts(indices: seq<Word>, s: seq<Size.Byte>, count: nat, more: seq<Size.Byte>)
    requires Readable(indices) && Written(indices) <= s && count <= Size.MAX_SIZE && s == Size.Write(count) + more
    ensures |indices| == count && WriteAll(Deltas(indices)) <= more
    ensures forall i :: 0 <= i < count ==> Deltas(indices)[i] <= Size.MAX_SIZE
  {
    hide Size.Write, WriteAll, Deltas, Readable, DeltaAt;
    PrefixOf(Size.Write(|indices|), WriteAll(Deltas(indices)), s);
    assert Size.Write(count) <= s;
    Size.WriteUnique(count, |indices|, s);
    assert s[|Size.Write(count)|..] == more;
    ReadableDeltas(indices);
  }

  lemma NoNumbers(s: seq<Size.Byte>, count: nat, more: seq<Size.Byte>)
    requires count <= Size.MAX_SIZE && s == Size.Write(count) + more
    requires forall a: seq<nat> :: |a| == count && (forall i :: 0 <= i < count ==> a[i] <= Size.MAX_SIZE) ==> !(WriteAll(a) <= more)
    ensures forall indices: seq<Word> :: Readable(indices) ==> !(Written(indices) <= s)
  {
    hide Size.Write, WriteAll, Deltas, Readable, Written;
    forall indices: seq<Word> | Readable(indices) && Written(indices) <= s
      ensures false
    {
      Parts(indices, s, count, more);
    }
  }

  lemma NoSum(s: seq<Size.Byte>, count: nat, more: seq<Size.Byte>, ns: seq<nat>, end: seq<Size.Byte>, out: seq<Word>)
    requires count <= Size.MAX_SIZE && s == Size.Write(count) + more && |ns| == count && more == WriteAll(ns) + end
    requires forall i :: 0 <= i < count ==> ns[i] <= Size.MAX_SIZE
    requires |out| < |ns| && DecodedTo(ns, out, |out|) && ns[|out|] + OffsetAt(out, |out|) > MAX32
    ensures forall indices: seq<Word> :: Readable(indices) ==> !(Written(indices) <= s)
  {
    hide Size.Write, WriteAll, Deltas, Written, DeltaAt, OffsetAt, CanFollow;
    forall indices: seq<Word> | Readable(indices) && Written(indices) <= s
      ensures false
    {
      var n := |out|;
      Parts(indices, s, count, more);
      assert WriteAll(ns) <= more;
      WriteAllUnique(ns, Deltas(indices), more);
      DecodedSame(ns, indices, out);
      assert n > 0 ==> out[n - 1] == indices[n - 1];
      OffsetSame(out, indices, n);
      DeltaExact(indices, n);
    }
  }

  // ---------------------------------------------------------------- round trip

  /** A request comes back unchanged, with what follows it, exactly if it can be read; it is refused otherwise. */
  method IndexTrip(indices: seq<Word>, more: seq<Size.Byte>) returns (r: Option<seq<Word>>, rest: seq<Size.Byte>)
    ensures r.Some? <==> Readable(indices)
    ensures r.Some? ==> r.value == indices && rest == more
  {
    hide Readable, Written;
    var s := WriteRequest(indices);
    r, rest := ReadRequest(s + more);
    assert s <= s + more;
    if r.Some? {
      assert Written(r.value) <= s + more;
      WrittenUnique(r.value, indices, s + more);
      assert rest == (s + more)[|s|..] == more;
    }
  }

  /** An increasing list that is written but not read back. */
  method TooFar() returns (r: Option<seq<Word>>)
    ensures r.None?
  {
    var far: Word := Size.MAX_SIZE + 1;
    var rest;
    r, rest := IndexTrip([far], []);
    assert !CanFollow([far], 0);
  }

  /** An index after the largest one is possible, but only far into a list. */
  lemma {:induction false} Climbs(indices: seq<Word>, i: nat)
    requires Readable(indices) && i < |indices|
    ensures indices[i] < (i + 1) * (Size.MAX_SIZE + 1)
    ensures indices[i] == MAX32 ==> i >= 127
  {
    assert CanFollow(indices, i);
    if i > 0 {
      Climbs(indices, i - 1);
    }
  }

  function Climb(i: nat): Word {
    if i < 127 then (i + 1) * (Size.MAX_SIZE + 1) - 1 else if i == 127 then MAX32 else 0
  }

  lemma AfterLargest()
    ensures
      var indices := seq(129, (i: nat) => Climb(i));
      Readable(indices) && indices[127] == MAX32 && indices[128] == 0
  {
    var indices := seq(129, (i: nat) => Climb(i));
    forall i | 0 <= i < |indices|
      ensures CanFollow(indices, i)
    {
      assert i > 0 ==> indices[i - 1] == Climb(i - 1);
      assert indices[i] == Climb(i);
    }
  }

  // ---------------------------------------------------------------- prefilled transactions

  /** The index of a prefilled transaction as it is received. */
  method ReadPrefilledIndex(s: seq<Size.Byte>) returns (r: Option<Word>, rest: seq<Size.Byte>)
    ensures r.Some? <==> exists n: nat :: n <= Size.MAX_SIZE && Size.Write(n) <= s
    ensures r.Some? ==> r.value <= Size.MAX_SIZE && s == Size.Write(r.value) + rest
  {
    hide Size.Write;
    var n;
    n, rest := Size.Read(s);
    if n.None? {
      return None, rest;
    }
    if n.value > MAX32 {
      assert false;
    }
    return Some(n.value), rest;
  }
}
