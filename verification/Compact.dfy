/** The compact form of difficulty targets (src/arith_uint256.cpp) and the proof of work of a block
    (src/chain.cpp). */
module Compact {
  import opened Common
  import opened Limbs
  import opened LimbOps
  import opened Arith256

  // ---------------------------------------------------------------- bytes

  ghost function Pow256(k: nat): (r: nat)
    ensures r >= 1
  {
    if k == 0 then 1 else 256 * Pow256(k - 1)
  }

  lemma {:induction false} Pow256Is(k: nat)
    ensures Pow256(k) == Pow2(8 * k)
  {
    if k > 0 {
      Pow256Is(k - 1);
      Pow2Values();
      Pow2Add(8, 8 * (k - 1));
    }
  }

  lemma {:induction false} Pow256Add(a: nat, b: nat)
    ensures Pow256(a + b) == Pow256(a) * Pow256(b)
    decreases b
  {
    if b > 0 {
      Pow256Add(a, b - 1);
      assert Pow256(a) * (256 * Pow256(b - 1)) == 256 * (Pow256(a) * Pow256(b - 1));
    }
  }

  lemma {:induction false} Pow256Monotone(a: nat, b: nat)
    requires a <= b
    ensures Pow256(a) <= Pow256(b)
    decreases b
  {
    if a < b {
      Pow256Monotone(a, b - 1);
    }
  }

  /** The number of bytes of a number. */
  ghost function NumBytes(v: nat): nat {
    if v == 0 then 0 else 1 + NumBytes(v / 256)
  }

  ghost predicate HasBytes(v: nat, n: nat) {
    if n == 0 then v == 0 else Pow256(n - 1) <= v < Pow256(n)
  }

  lemma {:induction false} NumBytesExact(v: nat)
    ensures HasBytes(v, NumBytes(v))
  {
    if v != 0 {
      NumBytesExact(v / 256);
      assert Pow256(0) == 1;
    }
  }

  lemma BytesUnique(v: nat, n: nat, m: nat)
    requires HasBytes(v, n) && HasBytes(v, m)
    ensures n == m
  {
    if n < m {
      Pow256Monotone(n, m - 1);
    } else if m < n {
      Pow256Monotone(m, n - 1);
    }
  }

  lemma BytesOfBits(v: nat, bits: nat)
    requires IsBits(v, bits)
    ensures NumBytes(v) == (bits + 7) / 8
  {
    var n := (bits + 7) / 8;
    if bits > 0 {
      Pow256Is(n);
      Pow256Is(n - 1);
      Pow2Monotone(8 * (n - 1), bits - 1);
      Pow2Monotone(bits, 8 * n);
    }
    hide Pow256, Pow2;
    NumBytesExact(v);
    BytesUnique(v, n, NumBytes(v));
  }

  // ---------------------------------------------------------------- the format

  const SIGN: nat := 0x80_0000
  const SIZE_UNIT: nat := 0x100_0000

  type Word = x: nat | x < 0x1_0000_0000

  function Mantissa(c: Word): nat {
    c % SIGN
  }

  function Exponent(c: Word): nat {
    c / SIZE_UNIT
  }

  function SignBit(c: Word): bool {
    c / SIGN % 2 == 1
  }

  /** The number that a compact form stands for: mantissa times 256 to the exponent minus three. */
  ghost function Meaning(c: Word): nat {
    if Exponent(c) <= 3 then Quotient(Mantissa(c), Pow256(3 - Exponent(c))) else Mantissa(c) * Pow256(Exponent(c) - 3)
  }

  /** The three highest of `n` bytes, padded with zero bytes. */
  ghost function TopOf(v: nat, n: nat): nat {
    if n <= 3 then v * Pow256(3 - n) else Quotient(v, Pow256(n - 3))
  }

  ghost function TopThree(v: nat): nat {
    TopOf(v, NumBytes(v))
  }

  lemma TopThreeBound(v: nat)
    ensures TopThree(v) < SIZE_UNIT
    ensures v > 0 ==> TopThree(v) >= 0x1_0000
  {
    var n := NumBytes(v);
    NumBytesExact(v);
    assert Pow256(3) == SIZE_UNIT && Pow256(2) == 0x1_0000 by { assert Pow256(1) == 256 * Pow256(0); }
    if n == 0 {
    } else if n <= 3 {
      Pow256Add(n, 3 - n);
      Pow256Add(n - 1, 3 - n);
      hide Pow256;
      MulMonotone(v + 1, Pow256(n), Pow256(3 - n));
      MulMonotone(Pow256(n - 1), v, Pow256(3 - n));
      assert (v + 1) * Pow256(3 - n) == v * Pow256(3 - n) + Pow256(3 - n);
    } else {
      Pow256Add(3, n - 3);
      Pow256Add(2, n - 3);
      hide Pow256;
      DivBetween(v, Pow256(n - 3), 0x1_0000, SIZE_UNIT);
    }
  }

  lemma DivBetween(v: nat, p: nat, lo: nat, hi: nat)
    requires p > 0 && lo * p <= v < hi * p
    ensures lo <= v / p < hi
  {
    assert v == v / p * p + v % p;
    if v / p < lo {
      assert (v / p + 1) * p == v / p * p + p;
      MulMonotone(v / p + 1, lo, p);
    } else if v / p >= hi {
      MulMonotone(hi, v / p, p);
    }
  }

  ghost predicate HighBit(v: nat) {
    TopThree(v) >= SIGN
  }

  /** The compact form of a number. */
  ghost function CompactOf(v: nat): nat {
    if HighBit(v) then TopThree(v) / 256 + (NumBytes(v) + 1) * SIZE_UNIT else TopThree(v) + NumBytes(v) * SIZE_UNIT
  }

  /** A number with all but its highest three bytes cleared, or two if the highest bit of these is set. */
  ghost function Truncated(v: nat): nat {
    var keep := if HighBit(v) then 2 else 3;
    if NumBytes(v) <= keep then v else v / Pow256(NumBytes(v) - keep) * Pow256(NumBytes(v) - keep)
  }

  lemma BytesBound(v: nat)
    requires v < P(WIDTH)
    ensures NumBytes(v) <= 32
  {
    hide Pow256, Pow2, P;
    PIsPow2(WIDTH);
    Pow256Is(32);
    NumBytesExact(v);
    if NumBytes(v) > 32 {
      Pow256Monotone(32, NumBytes(v) - 1);
    }
  }

  /** Fields of a compact form put together from a mantissa and an exponent. */
  lemma Fields(m: nat, e: nat)
    requires m < SIGN && e < 256
    ensures m + e * SIZE_UNIT < 0x1_0000_0000
    ensures Mantissa(m + e * SIZE_UNIT) == m && Exponent(m + e * SIZE_UNIT) == e && !SignBit(m + e * SIZE_UNIT)
  {
  }

  lemma SmallPowers()
    ensures Pow256(0) == 1 && Pow256(1) == 256 && Pow256(2) == 0x1_0000 && Pow256(3) == 0x100_0000
  {
  }

  /** Encoding then decoding truncates and never reports a sign or an overflow. */
  lemma CompactRoundTrip(v: nat)
    requires v < P(WIDTH)
    ensures CompactOf(v) < 0x1_0000_0000
    ensures !SignBit(CompactOf(v)) && Meaning(CompactOf(v)) == Truncated(v) <= v
  {
    hide Pow256, P, NumBytes;
    BytesBound(v);
    TopThreeBound(v);
    SmallPowers();
    var n, t := NumBytes(v), TopThree(v);
    if HighBit(v) {
      Fields(t / 256, n + 1);
      if n > 3 {
        Pow256Add(n - 3, 1);
        DivTwice(v, Pow256(n - 3), 256);
      }
    } else {
      Fields(t, n);
    }
    RoundDown(v, if HighBit(v) then 2 else 3);
  }

  lemma RoundDown(v: nat, keep: nat)
    ensures NumBytes(v) > keep ==> v / Pow256(NumBytes(v) - keep) * Pow256(NumBytes(v) - keep) <= v
  {
  }

  lemma DivTwice(v: nat, p: nat, q: nat)
    requires p > 0 && q > 0
    ensures v / p / q == v / (p * q)
  {
    var a, b := v / p, v % p;
    var c, d := a / q, a % q;
    assert v == a * p + b && a == c * q + d;
    assert a * p == c * (p * q) + d * p;
    BelowProduct(b, d, p, q);
    IsDiv(v, p * q, c, b + d * p);
  }

  /** Re-encoding a decoded number gives the same compact form. */
  lemma CompactStable(v: nat)
    requires v < P(WIDTH)
    ensures CompactOf(Truncated(v)) == CompactOf(v)
  {
    hide Pow256, P, NumBytes;
    var n, keep := NumBytes(v), if HighBit(v) then 2 else 3;
    if n > keep {
      NumBytesExact(v);
      TruncateKeeps(v, n, keep);
      NumBytesExact(Truncated(v));
      BytesUnique(Truncated(v), n, NumBytes(Truncated(v)));
    }
  }

  /** Clearing low bytes keeps the number of bytes and what is left of the top. */
  lemma TruncateKeeps(v: nat, n: nat, keep: nat)
    requires HasBytes(v, n) && n > keep && 2 <= keep <= 3
    ensures
      var t := v / Pow256(n - keep) * Pow256(n - keep);
      && HasBytes(t, n)
      && TopOf(t, n) == if keep == 3 then TopOf(v, n) else TopOf(v, n) / 256 * 256
  {
    hide Pow256;
    SmallPowers();
    var p := Pow256(n - keep);
    var q := v / p;
    Pow256Add(n - keep, keep - 1);
    assert (n - keep) + (keep - 1) == n - 1;
    KeepTop(v, p, Pow256(keep - 1));
    if keep == 3 {
      CancelMul(q, p);
    } else if n == 3 {
    } else {
      Pow256Add(n - 3, 1);
      DivTwice(v, Pow256(n - 3), 256);
      DivScaled(q, Pow256(n - 3));
    }
  }

  lemma KeepTop(v: nat, p: nat, r: nat)
    requires p > 0 && p * r <= v
    ensures p * r <= v / p * p <= v
  {
    assert v == v / p * p + v % p;
    if v / p < r {
      assert (v / p + 1) * p == v / p * p + p;
      MulMonotone(v / p + 1, r, p);
    }
    MulMonotone(r, v / p, p);
  }

  lemma CancelMul(q: nat, p: nat)
    requires p > 0
    ensures q * p / p == q
  {
    IsDiv(q * p, p, q, 0);
  }

  lemma DivScaled(q: nat, p: nat)
    requires p > 0
    ensures q * (p * 256) / p == q * 256
  {
    assert q * (p * 256) == q * 256 * p;
    CancelMul(q * 256, p);
  }

  /** The overflow test of the source is exact. */
  predicate Overflows(c: Word) {
    var nSize := Exponent(c);
    var nWord := if nSize <= 3 then Quotient(Mantissa(c), Pow2(8 * (3 - nSize))) else Mantissa(c);
    nWord != 0 && (nSize > 34 || (nWord > 0xff && nSize > 33) || (nWord > 0xffff && nSize > 32))
  }

  lemma OverflowExact(c: Word)
    ensures Overflows(c) <==> Meaning(c) >= P(WIDTH)
  {
    hide Pow256, P, Pow2;
    var e, m := Exponent(c), Mantissa(c);
    PIsPow2(WIDTH);
    Pow256Is(32);
    SmallPowers();
    if e <= 3 {
      SmallMeaning(c);
    } else {
      LargeMeaning(m, e);
    }
  }

  lemma MantissaBound(c: Word)
    ensures Mantissa(c) < SIGN
  {
  }

  lemma SmallMeaning(c: Word)
    requires Exponent(c) <= 3
    ensures Meaning(c) < P(WIDTH)
  {
  }

  /** A mantissa reaches 256 to the 32 exactly when the exponent is large enough for its bytes. */
  lemma LargeMeaning(m: nat, e: nat)
    requires m < SIGN && e > 3
    ensures m * Pow256(e - 3) >= Pow256(32) <==> m != 0 && (e > 34 || (m > 0xff && e > 33) || (m > 0xffff && e > 32))
  {
    hide Pow256;
    SmallPowers();
    if m != 0 {
      var k := if m > 0xffff then 2 else if m > 0xff then 1 else 0;
      Pow256Add(e - 3, k);
      Pow256Add(e - 3, k + 1);
      MulMonotone(Pow256(k), m, Pow256(e - 3));
      MulMonotone(m + 1, Pow256(k + 1), Pow256(e - 3));
      assert (m + 1) * Pow256(e - 3) == m * Pow256(e - 3) + Pow256(e - 3);
      if e - 3 + k >= 32 {
        Pow256Monotone(32, e - 3 + k);
      } else {
        Pow256Monotone(e - 3 + k + 1, 32);
      }
    }
  }

  // ---------------------------------------------------------------- the operations

  /** Decodes a compact form into a number. */
  method SetCompact(x: ArithUint256, nCompact: Word) returns (fNegative: bool, fOverflow: bool)
    requires x.Valid()
    modifies x.pn
    ensures x.Value() == Meaning(nCompact) % P(WIDTH)
    ensures fNegative <==> SignBit(nCompact) && Meaning(nCompact) != 0
    ensures fOverflow <==> Meaning(nCompact) >= P(WIDTH)
  {
    hide P, Pow2, Val, Pow256, Mantissa, Exponent, SignBit;
    var nSize := Exponent(nCompact);
    var nWord := Mantissa(nCompact);
    MantissaBound(nCompact);
    OverflowExact(nCompact);
    if nSize <= 3 {
      nWord := Quotient(nWord, Pow2(8 * (3 - nSize)));
      x.Assign(nWord);
      Pow256Is(3 - nSize);
      SmallMeaning(nCompact);
      IsMod(nWord, 0, P(WIDTH), nWord);
    } else {
      x.Assign(nWord);
      x.ShiftLeftAssign(8 * (nSize - 3));
      Pow256Is(nSize - 3);
      MulMonotone(1, Pow256(nSize - 3), nWord);
    }
    fNegative := nWord != 0 && SignBit(nCompact);
    fOverflow := nWord != 0 && (nSize > 34 || (nWord > 0xff && nSize > 33) || (nWord > 0xffff && nSize > 32));
  }

  /** The size in bytes and the highest three bytes. */
  method TopWord(x: ArithUint256) returns (nSize: nat, nWord: nat)
    requires x.Valid()
    ensures nSize == NumBytes(x.Value()) && nWord == TopThree(x.Value())
  {
    hide P, Pow2, Val, Pow256, NumBytes, IsBits;
    ghost var v := x.Value();
    TopThreeBound(v);
    var bits := x.Bits();
    BytesOfBits(v, bits);
    nSize := (bits + 7) / 8;
    if nSize <= 3 {
      var low := x.GetLow64();
      LowIsAll(v);
      Pow256Is(3 - nSize);
      nWord := low * Pow2(8 * (3 - nSize)) % 0x1_0000_0000;
    } else {
      var bn := new ArithUint256.Copy(x);
      bn.ShiftRightAssign(8 * (nSize - 3));
      Pow256Is(nSize - 3);
      nWord := bn.GetLow64();
      SmallMod(TopThree(v));
    }
  }

  /** Encodes a number. */
  method GetCompact(x: ArithUint256, fNegative: bool) returns (nCompact: Word)
    requires x.Valid()
    ensures
      var c := CompactOf(x.Value());
      c < 0x1_0000_0000 && nCompact == c + if fNegative && Mantissa(c) != 0 then SIGN else 0
  {
    hide P, Val, NumBytes, TopThree, Or, Meaning, Truncated;
    ghost var v := x.Value();
    ValBound(x.pn[..], WIDTH);
    BytesBound(v);
    TopThreeBound(v);
    CompactRoundTrip(v);
    var nSize, nWord := TopWord(x);
    if nWord / SIGN % 2 == 1 {
      nWord := nWord / 256;
      nSize := nSize + 1;
    }
    assert nWord < SIGN && nSize < 256;
    OrFields(nWord, nSize);
    nCompact := Or(nWord, nSize * SIZE_UNIT);
    if fNegative && Mantissa(nCompact) != 0 {
      OrSign(nCompact);
      nCompact := Or(nCompact, SIGN);
    }
  }

  lemma LowIsAll(v: nat)
    requires NumBytes(v) <= 3
    ensures v % Pow2(64) == v
  {
    hide Pow2, Pow256, NumBytes;
    NumBytesExact(v);
    Pow256Is(NumBytes(v));
    Pow2Monotone(8 * NumBytes(v), 64);
    IsMod(v, 0, Pow2(64), v);
  }

  lemma SmallMod(t: nat)
    requires t < SIZE_UNIT
    ensures t % Pow2(64) == t
  {
    hide Pow2;
    Pow2Values();
    Pow2Monotone(24, 64);
    IsMod(t, 0, Pow2(64), t);
  }

  lemma OrFields(m: nat, e: nat)
    requires m < SIGN && e < 256
    ensures Or(m, e * SIZE_UNIT) == m + e * SIZE_UNIT
  {
    hide Pow2, Or;
    Pow2Values();
    IsMod(0, e, SIZE_UNIT, e * SIZE_UNIT);
    OrDisjoint(e * SIZE_UNIT, m, 24);
  }

  /** Setting a bit that is not set adds its weight. */
  lemma {:induction false} OrUnset(x: nat, k: nat)
    requires x / Pow2(k) % 2 == 0
    ensures Or(x, Pow2(k)) == x + Pow2(k)
    decreases k
  {
    if k == 0 {
      assert x / 1 == x;
    } else if x != 0 {
      DivTwice(x, 2, Pow2(k - 1));
      OrUnset(x / 2, k - 1);
    }
  }

  lemma OrSign(c: Word)
    requires !SignBit(c)
    ensures Or(c, SIGN) == c + SIGN
  {
    hide Or, Pow2;
    Pow2Values();
    Pow2Add(16, 7);
    SmallPow2();
    OrUnset(c, 23);
  }

  lemma SmallPow2()
    ensures Pow2(7) == 128
  {
  }

  /** Encoding and decoding on objects. */
  method CompactTrip(x: ArithUint256) returns (y: ArithUint256, fNegative: bool, fOverflow: bool)
    requires x.Valid()
    ensures y.Valid() && !fNegative && !fOverflow && y.Value() == Truncated(x.Value())
  {
    hide P, Val, Meaning, Truncated, CompactOf, SignBit;
    ghost var v := x.Value();
    ValBound(x.pn[..], WIDTH);
    CompactRoundTrip(v);
    var c := GetCompact(x, false);
    y := new ArithUint256(0);
    fNegative, fOverflow := SetCompact(y, c);
    IsMod(Truncated(v), 0, P(WIDTH), Truncated(v));
  }

  // ---------------------------------------------------------------- proof of work

  lemma TargetFits(c: Word)
    requires Meaning(c) < P(WIDTH)
    ensures Meaning(c) + 1 < P(WIDTH)
  {
    hide Pow2, Val;
    var e, m := Exponent(c), Mantissa(c);
    assert P(WIDTH) == BASE * P(WIDTH - 1);
    hide P;
    if e > 3 {
      var k := m * Pow256(e - 4);
      assert m * (256 * Pow256(e - 4)) == 256 * k;
    } else {
      hide Pow256;
      PIsPow2(WIDTH);
      Pow2Values();
      Pow2Monotone(24, 256);
    }
  }

  lemma ProofExact(t: nat, p: nat)
    requires 0 < t && t + 1 < p
    ensures (p - 1 - t) / (t + 1) + 1 == p / (t + 1) < p
  {
    var d := t + 1;
    var q, r := (p - d) / d, (p - d) % d;
    assert p - d == q * d + r;
    assert (q + 1) * d == q * d + d;
    IsDiv(p, d, q + 1, r);
    QuotientBound(p, d);
  }

  /** The work of a block: 2^256 divided by the target plus one, or zero for an invalid target. */
  method GetBlockProof(nBits: Word) returns (r: ArithUint256)
    ensures r.Valid()
    ensures
      var target := Meaning(nBits);
      r.Value() == if target == 0 || SignBit(nBits) || target >= Pow2(256) then 0 else Pow2(256) / (target + 1)
  {
    hide P, Val, Pow2, Meaning, SignBit;
    PIsPow2(WIDTH);
    var bnTarget := new ArithUint256(0);
    var fNegative, fOverflow := SetCompact(bnTarget, nBits);
    ghost var t := Meaning(nBits);
    if !fOverflow {
      IsMod(t, 0, P(WIDTH), t);
    }
    var zero := bnTarget.EqualTo(0);
    if fNegative || fOverflow || zero {
      r := new ArithUint256(0);
      return;
    }
    TargetFits(nBits);
    ProofExact(t, P(WIDTH));
    var one := new ArithUint256(1);
    r := bnTarget.Complement();
    bnTarget.AddAssign(one);
    IsMod(t + 1, 0, P(WIDTH), t + 1);
    var ok := r.DivAssign(bnTarget);
    r.AddAssign(one);
    IsMod(P(WIDTH) / (t + 1), 0, P(WIDTH), P(WIDTH) / (t + 1));
  }
}
