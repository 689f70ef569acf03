/** Compact sizes (src/serialize.h): numbers written in one, three, five or nine bytes, and read back only in
    their shortest form and up to a limit. */
module CompactSize {
  import opened Common

  type Byte = x: nat | x < 256

  /** The largest number that is read. */
  const MAX_SIZE: nat := 0x0200_0000

  /** The lowest `k` bytes of a number, lowest first. */
  function Bytes(n: nat, k: nat): (r: seq<Byte>)
    ensures |r| == k
  {
    if k == 0 then [] else [n % 256] + Bytes(n / 256, k - 1)
  }

  function Number(s: seq<Byte>): nat {
    if s == [] then 0 else s[0] + 256 * Number(s[1..])
  }

  function Power(k: nat): (r: nat)
    ensures r >= 1
  {
    if k == 0 then 1 else 256 * Power(k - 1)
  }

  lemma {:induction false} NumberOfBytes(n: nat, k: nat)
    requires n < Power(k)
    ensures Number(Bytes(n, k)) == n
  {
    if k > 0 {
      NumberOfBytes(n / 256, k - 1);
      assert Bytes(n, k)[1..] == Bytes(n / 256, k - 1);
    }
  }

  lemma {:induction false} BytesOfNumber(s: seq<Byte>)
    ensures Number(s) < Power(|s|) && Bytes(Number(s), |s|) == s
  {
    if s != [] {
      BytesOfNumber(s[1..]);
      assert s == [s[0]] + s[1..];
    }
  }

  lemma Powers()
    ensures Power(1) == 0x100 && Power(2) == 0x1_0000 && Power(4) == 0x1_0000_0000
    ensures Power(8) == 0x1_0000_0000_0000_0000
  {
    assert Power(3) == 0x100_0000;
    assert Power(5) == 0x100_0000_0000;
    assert Power(6) == 0x1_0000_0000_0000;
    assert Power(7) == 0x100_0000_0000_0000;
  }

  /** Writes a number; one of more than 64 bits cannot occur and loses its upper part. */
  function Write(n: nat): (r: seq<Byte>)
    ensures |r| > 0
  {
    if n < 253 then Bytes(n, 1)
    else if n <= 0xFFFF then [253] + Bytes(n, 2)
    else if n <= 0xFFFF_FFFF then [254] + Bytes(n, 4)
    else [255] + Bytes(n, 8)
  }

  /** Some written forms. */
  lemma KnownSizes()
    ensures Write(0) == [0] && Write(252) == [252] && Write(253) == [253, 253, 0] && Write(0x1234) == [253, 0x34, 0x12]
    ensures Write(0xFFFF) == [253, 255, 255] && Write(0x1_0203) == [254, 3, 2, 1, 0]
    ensures Write(0x1_0000_0002) == [255, 2, 0, 0, 0, 1, 0, 0, 0]
  {
    KnownBytes();
    hide Bytes;
  }

  lemma KnownBytes()
    ensures Bytes(0, 1) == [0] && Bytes(252, 1) == [252] && Bytes(253, 2) == [253, 0]
    ensures Bytes(0x1234, 2) == [0x34, 0x12] && Bytes(0xFFFF, 2) == [255, 255] && Bytes(0x1_0203, 4) == [3, 2, 1, 0]
    ensures Bytes(0x1_0000_0002, 8) == [2, 0, 0, 0, 1, 0, 0, 0]
  {
    assert Bytes(1, 4) == [1, 0, 0, 0];
  }

  /** The number of bytes that follow the first one, and the smallest number that needs them. */
  function Width(first: Byte): nat {
    if first < 253 then 0 else if first == 253 then 2 else if first == 254 then 4 else 8
  }

  function Least(first: Byte): nat {
    if first < 253 then 0 else if first == 253 then 253 else if first == 254 then 0x1_0000 else 0x1_0000_0000
  }

  /** Reads a number off the front, unless the stream ends, the form is not the shortest, or the number is too large. */
  method Read(s: seq<Byte>) returns (r: Option<nat>, rest: seq<Byte>)
    ensures r.Some? <==> exists n: nat :: n <= MAX_SIZE && Write(n) <= s
    ensures r.Some? ==> r.value <= MAX_SIZE && s == Write(r.value) + rest
  {
    hide Bytes, Number, Power, Write;
    rest := [];
    if s == [] {
      NothingWritten();
      return None, rest;
    }
    var chSize := s[0];
    var k := Width(chSize);
    if |s| < 1 + k {
      TooShort(s);
      return None, rest;
    }
    var nSizeRet := if k == 0 then chSize else Number(s[1..1 + k]);
    ReadExact(s, nSizeRet);
    if nSizeRet < Least(chSize) {
      return None, rest;
    }
    if nSizeRet > MAX_SIZE {
      return None, rest;
    }
    return Some(nSizeRet), s[1 + k..];
  }

  lemma NothingWritten()
    ensures forall n :: !(Write(n) <= [])
  {
  }

  lemma WriteShape(n: nat)
    ensures |Write(n)| == 1 + Width(Write(n)[0]) && n >= Least(Write(n)[0])
    ensures n > 0xFFFF_FFFF <==> Write(n)[0] == 255
    ensures n <= 0xFFFF_FFFF ==> n == if Width(Write(n)[0]) == 0 then Write(n)[0] else Number(Write(n)[1..])
  {
    hide Number;
    Powers();
    hide Power;
    if n < 253 {
      assert Bytes(n, 1) == [n % 256] + Bytes(n / 256, 0);
    } else if n <= 0xFFFF {
      assert Write(n)[1..] == Bytes(n, 2);
      NumberOfBytes(n, 2);
    } else if n <= 0xFFFF_FFFF {
      assert Write(n)[1..] == Bytes(n, 4);
      NumberOfBytes(n, 4);
    }
  }

  lemma TooShort(s: seq<Byte>)
    requires s != [] && |s| < 1 + Width(s[0])
    ensures forall n :: !(Write(n) <= s)
  {
    hide Write;
    forall n | Write(n) <= s
      ensures false
    {
      WriteShape(n);
    }
  }

  lemma WriteRead(s: seq<Byte>, n: nat)
    requires s != [] && |s| >= 1 + Width(s[0])
    requires n == if Width(s[0]) == 0 then s[0] else Number(s[1..1 + Width(s[0])])
    requires n >= Least(s[0])
    ensures s == Write(n) + s[1 + Width(s[0])..]
  {
    hide Number, Bytes;
    Powers();
    hide Power;
    var k := Width(s[0]);
    var t := s[1..1 + k];
    if k == 0 {
      OneByte(n);
    } else {
      BytesOfNumber(t);
    }
    assert s == [s[0]] + t + s[1 + k..];
  }

  lemma OneByte(n: nat)
    requires n < 253
    ensures Bytes(n, 1) == [n]
  {
    assert Bytes(n, 1) == [n % 256] + Bytes(n / 256, 0);
  }

  /** What is read is the only number whose written form the stream starts with. */
  lemma ReadExact(s: seq<Byte>, n: nat)
    requires s != [] && |s| >= 1 + Width(s[0])
    requires n == if Width(s[0]) == 0 then s[0] else Number(s[1..1 + Width(s[0])])
    ensures n >= Least(s[0]) ==> s == Write(n) + s[1 + Width(s[0])..] && Write(n) <= s
    ensures forall m: nat :: m <= MAX_SIZE && Write(m) <= s ==> m == n && n >= Least(s[0])
  {
    hide Write, Number;
    if n >= Least(s[0]) {
      WriteRead(s, n);
    }
    forall m: nat | m <= MAX_SIZE && Write(m) <= s
      ensures m == n && n >= Least(s[0])
    {
      WriteShape(m);
      assert Write(m)[0] == s[0];
      assert Width(s[0]) > 0 ==> Write(m)[1..] == s[1..1 + Width(s[0])];
    }
  }

  /** A stream starts with the written form of no other number than one up to the limit. */
  lemma WriteUnique(m: nat, n: nat, s: seq<Byte>)
    requires m <= MAX_SIZE && Write(m) <= s && Write(n) <= s
    ensures m == n
  {
    hide Write, Number;
    WriteShape(m);
    WriteShape(n);
    assert Write(m)[0] == s[0] == Write(n)[0];
    assert Width(s[0]) > 0 ==> Write(m)[1..] == s[1..1 + Width(s[0])] == Write(n)[1..];
  }
}
