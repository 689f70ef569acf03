/** What the CashAddr checksum computes (src/cashaddr.cpp): the remainder of a polynomial over GF(32), read off
    a list of values, modulo the generator of the code. */
module CashAddrCode {
  import opened CashAddr

  // ---------------------------------------------------------------- the field

  function Plus(a: Value, b: Value): Value {
    a ^ b
  }

  /** Times a, modulo a^5 + a^3 + 1. */
  function TimesA(b: Value): Value {
    (b << 1) ^ (if b & 16 != 0 then 9 else 0)
  }

  /** The product in GF(32): bit n of the first factor stands for a^n. */
  function Mul(c: Value, b: Value): Value {
    var b1 := TimesA(b);
    var b2 := TimesA(b1);
    var b3 := TimesA(b2);
    var b4 := TimesA(b3);
    (if c & 1 != 0 then b else 0) ^ (if c & 2 != 0 then b1 else 0) ^ (if c & 4 != 0 then b2 else 0)
    ^ (if c & 8 != 0 then b3 else 0) ^ (if c & 16 != 0 then b4 else 0)
  }

  lemma PlusZeros()
    ensures forall b :: Plus(b, 0) == b && Plus(0, b) == b
  {
  }

  lemma MulUnits(b: Value)
    ensures Mul(b, 1) == b && Mul(1, b) == b && Mul(0, b) == 0 && Mul(b, 0) == 0
    ensures Mul(5, 26) == 9
  {
  }

  // ---------------------------------------------------------------- the eight coefficients

  const GENERATOR: seq<Value> := [1, 19, 3, 25, 11, 25, 3, 19, 1]

  /** The coefficients packed into a remainder, the highest first. */
  function Unpack(c: bv40): (r: seq<Value>)
    ensures |r| == 8
  {
    [Low(c >> 35), Low(c >> 30), Low(c >> 25), Low(c >> 20), Low(c >> 15), Low(c >> 10), Low(c >> 5), Low(c)]
  }

  function Low(c: bv40): Value {
    (c & 0x1f) as bv5
  }

  /** What a step adds for the symbol shifted out is that symbol times the generator without its first term. */
  lemma FeedbackUnpacked(c0: Value)
    ensures forall j :: 0 <= j < 8 ==> Unpack(Feedback(Wide(c0)))[j] == Mul(c0, GENERATOR[j + 1])
  {
    FeedbackHigh(c0);
    FeedbackLow(c0);
    hide Feedback, Mul, Low;
  }

  lemma FeedbackHigh(c0: Value)
    ensures Low(Feedback(Wide(c0)) >> 35) == Mul(c0, 19) && Low(Feedback(Wide(c0)) >> 30) == Mul(c0, 3)
    ensures Low(Feedback(Wide(c0)) >> 25) == Mul(c0, 25) && Low(Feedback(Wide(c0)) >> 20) == Mul(c0, 11)
  {
  }

  lemma FeedbackLow(c0: Value)
    ensures Low(Feedback(Wide(c0)) >> 15) == Mul(c0, 25) && Low(Feedback(Wide(c0)) >> 10) == Mul(c0, 3)
    ensures Low(Feedback(Wide(c0)) >> 5) == Mul(c0, 19) && Low(Feedback(Wide(c0))) == Mul(c0, 1)
  {
  }

  lemma LowXor(a: bv40, b: bv40)
    ensures Low(Xor(a, b)) == Low(a) ^ Low(b)
  {
  }

  lemma DropXor(a: bv40, b: bv40)
    ensures DropLast(Xor(a, b)) == Xor(DropLast(a), DropLast(b))
  {
  }

  lemma UnpackDrop(c: bv40, i: nat)
    requires i < 7
    ensures Unpack(DropLast(c))[i + 1] == Unpack(c)[i]
  {
  }

  lemma {:induction false} UnpackXor(a: bv40, b: bv40, i: nat)
    requires i < 8
    ensures Unpack(Xor(a, b))[i] == Plus(Unpack(a)[i], Unpack(b)[i])
    decreases 8 - i
  {
    hide Low, Xor, DropLast;
    if i < 7 {
      UnpackDrop(a, i);
      UnpackDrop(b, i);
      UnpackDrop(Xor(a, b), i);
      hide Unpack;
      DropXor(a, b);
      UnpackXor(DropLast(a), DropLast(b), i + 1);
    } else {
      LowXor(a, b);
    }
  }

  lemma UnpackShift(c: bv40)
    ensures forall j :: 0 <= j < 7 ==> Unpack(ShiftIn(c))[j] == Unpack(c)[j + 1]
    ensures Unpack(ShiftIn(c))[7] == 0 && ShiftOut(c) == Wide(Unpack(c)[0])
  {
  }

  lemma UnpackWide(d: Value)
    ensures forall j :: 0 <= j < 7 ==> Unpack(Wide(d))[j] == 0
    ensures Unpack(Wide(d))[7] == d
  {
  }

  /** One step of long division. */
  lemma StepUnpacked(c: bv40, d: Value)
    ensures
      var u, w := Unpack(c), Unpack(Step(c, d));
      && (forall j :: 0 <= j < 7 ==> w[j] == Plus(u[j + 1], Mul(u[0], GENERATOR[j + 1])))
      && w[7] == Plus(d, Mul(u[0], GENERATOR[8]))
  {
    hide Unpack, Xor, Feedback, Mul, ShiftIn, ShiftOut, Wide;
    var c0 := Unpack(c)[0];
    UnpackShift(c);
    UnpackWide(d);
    FeedbackUnpacked(c0);
    forall j | 0 <= j < 8
      ensures Unpack(Step(c, d))[j] ==
              Plus(Plus(Unpack(ShiftIn(c))[j], Mul(c0, GENERATOR[j + 1])), Unpack(Wide(d))[j])
    {
      UnpackXor(ShiftIn(c), Feedback(Wide(c0)), j);
      UnpackXor(Xor(ShiftIn(c), Feedback(Wide(c0))), Wide(d), j);
    }
    PlusZeros();
    hide Plus;
  }

  // ---------------------------------------------------------------- division

  function Term(q: seq<Value>, k: int, j: nat): Value
    requires j <= 8
  {
    if 0 <= k - j < |q| then Mul(q[k - j], GENERATOR[j]) else 0
  }

  /** The `k`-th coefficient of `q` times the first `j` terms of the generator, counted from the highest. */
  function Product(q: seq<Value>, k: int, j: nat): Value
    requires j <= 9
  {
    if j == 0 then 0 else Plus(Product(q, k, j - 1), Term(q, k, j - 1))
  }

  /** `p` is `q` times the generator, plus `r`. Lists hold the coefficients from the highest on. */
  ghost predicate Divides(p: seq<Value>, q: seq<Value>, r: seq<Value>) {
    && |r| == 8 && |p| == |q| + 8
    && forall k :: 0 <= k < |p| ==> p[k] == Plus(Product(q, k, 9), if k < |q| then 0 else r[k - |q|])
  }

  /** The polynomial of a list of values: an implicit one in front, and zeros above it. */
  function Poly(v: seq<Value>): seq<Value> {
    [0, 0, 0, 0, 0, 0, 0, 1] + v
  }

  lemma {:induction false} ProductAppend(q: seq<Value>, c: Value, k: int, j: nat)
    requires j <= 9
    ensures Product(q + [c], k, j) ==
            Plus(Product(q, k, j), if 0 <= k - |q| < j then Mul(c, GENERATOR[k - |q|]) else 0)
  {
    hide Mul;
    if j > 0 {
      ProductAppend(q, c, k, j - 1);
    }
  }

  lemma {:induction false} ProductOutside(q: seq<Value>, k: int, j: nat)
    requires j <= 9 && k >= |q| + j - 1
    ensures Product(q, k, j) == 0
  {
    if j > 0 {
      ProductOutside(q, k, j - 1);
    }
  }

  lemma DivideNext(p: seq<Value>, q: seq<Value>, r: seq<Value>, d: Value, r': seq<Value>)
    requires Divides(p, q, r) && |r'| == 8
    requires forall j :: 0 <= j < 7 ==> r'[j] == Plus(r[j + 1], Mul(r[0], GENERATOR[j + 1]))
    requires r'[7] == Plus(d, Mul(r[0], GENERATOR[8]))
    ensures Divides(p + [d], q + [r[0]], r')
  {
    hide Mul, Product, Plus;
    var p', q' := p + [d], q + [r[0]];
    PlusZeros();
    MulUnits(r[0]);
    forall k | 0 <= k < |p'|
      ensures p'[k] == Plus(Product(q', k, 9), if k < |q'| then 0 else r'[k - |q'|])
    {
      ProductAppend(q, r[0], k, 9);
      var j := k - |q|;
      if j == 8 {
        ProductOutside(q, k, 9);
      }
      if j > 0 {
        Cancels(Product(q, k, 9), if j < 8 then r[j] else d, Mul(r[0], GENERATOR[j]));
      }
    }
  }

  lemma Cancels(a: Value, b: Value, c: Value)
    ensures Plus(Plus(a, c), Plus(b, c)) == Plus(a, b)
  {
  }

  /** The remainder that the checksum computes, with some quotient. */
  lemma {:induction false} RunDivides(v: seq<Value>) returns (q: seq<Value>)
    ensures Divides(Poly(v), q, Unpack(Run(1, v)))
    decreases |v|
  {
    hide Step, Divides, Unpack;
    if v == [] {
      q := [];
      DivideStart();
    } else {
      var n := |v| - 1;
      var before := RunDivides(v[..n]);
      var c := Run(1, v[..n]);
      StepUnpacked(c, v[n]);
      DivideNext(Poly(v[..n]), before, Unpack(c), v[n], Unpack(Step(c, v[n])));
      assert Poly(v[..n]) + [v[n]] == Poly(v);
      q := before + [Unpack(c)[0]];
    }
  }

  lemma DivideStart()
    ensures Divides(Poly([]), [], Unpack(1))
  {
    assert Unpack(1) == [0, 0, 0, 0, 0, 0, 0, 1];
    forall k | 0 <= k < 8
      ensures Product([], k, 9) == 0
    {
      ProductNone(k, 9);
    }
  }

  lemma {:induction false} ProductNone(k: int, j: nat)
    requires j <= 9
    ensures Product([], k, j) == 0
  {
    if j > 0 {
      ProductNone(k, j - 1);
    }
  }

  /** The first coefficient of a factor not shared shows in the product. */
  lemma {:induction false} ProductSame(q: seq<Value>, q': seq<Value>, k: nat, j: nat)
    requires 1 <= j <= 9 && k < |q| == |q'| && q[..k] == q'[..k]
    ensures Plus(Product(q, k, j), q[k]) == Plus(Product(q', k, j), q'[k])
  {
    hide Mul, Plus;
    if j == 1 {
      ProductFirst(q, k);
      ProductFirst(q', k);
    } else {
      ProductSame(q, q', k, j - 1);
      assert k >= j - 1 ==> q[k - (j - 1)] == q[..k][k - (j - 1)] && q'[k - (j - 1)] == q'[..k][k - (j - 1)];
      assert Term(q, k, j - 1) == Term(q', k, j - 1);
      Exchange(Product(q, k, j - 1), q[k], Product(q', k, j - 1), q'[k], Term(q, k, j - 1));
    }
  }

  lemma ProductFirst(q: seq<Value>, k: nat)
    requires k < |q|
    ensures Plus(Product(q, k, 1), q[k]) == 0
  {
    MulUnits(q[k]);
    hide Mul;
    assert Product(q, k, 1) == Plus(Product(q, k, 0), Term(q, k, 0));
  }

  lemma Exchange(a: Value, b: Value, c: Value, d: Value, t: Value)
    requires Plus(a, b) == Plus(c, d)
    ensures Plus(Plus(a, t), b) == Plus(Plus(c, t), d)
  {
  }

  /** Division has one answer. */
  lemma {:induction false} QuotientUnique(p: seq<Value>, q: seq<Value>, r: seq<Value>, q': seq<Value>, r': seq<Value>,
                                          n: nat)
    requires Divides(p, q, r) && Divides(p, q', r') && n <= |q|
    ensures |q| == |q'| && q[..n] == q'[..n]
  {
    hide Product, Plus;
    if n > 0 {
      QuotientUnique(p, q, r, q', r', n - 1);
      ProductSame(q, q', n - 1, 9);
      PlusZeros();
      Equal(Product(q, n - 1, 9), q[n - 1], Product(q', n - 1, 9), q'[n - 1]);
      assert q[..n] == q[..n - 1] + [q[n - 1]] && q'[..n] == q'[..n - 1] + [q'[n - 1]];
    }
  }

  lemma Equal(a: Value, b: Value, c: Value, d: Value)
    requires Plus(a, b) == Plus(c, d) && a == c
    ensures b == d
  {
  }

  /** The checksum is computed from exactly the remainder of the values' polynomial modulo the generator. */
  lemma RemainderExact(v: seq<Value>, r: seq<Value>)
    ensures (exists q :: Divides(Poly(v), q, r)) <==> r == Unpack(Run(1, v))
  {
    hide Unpack, Run, Product, Plus;
    var s := Unpack(Run(1, v));
    var q := RunDivides(v);
    if q' :| Divides(Poly(v), q', r) {
      QuotientUnique(Poly(v), q, s, q', r, |q|);
      assert q == q[..|q|] && q' == q'[..|q|];
      forall j | 0 <= j < 8
        ensures r[j] == s[j]
      {
        var k := |q| + j;
        Equal(Product(q, k, 9), s[j], Product(q, k, 9), r[j]);
      }
    }
  }

  lemma UnpackInjective(a: bv40, b: bv40)
    requires Unpack(a) == Unpack(b)
    ensures a == b
  {
    assert Unpack(a)[0] == Unpack(b)[0] && Unpack(a)[1] == Unpack(b)[1] && Unpack(a)[2] == Unpack(b)[2];
    assert Unpack(a)[3] == Unpack(b)[3] && Unpack(a)[4] == Unpack(b)[4] && Unpack(a)[5] == Unpack(b)[5];
    assert Unpack(a)[6] == Unpack(b)[6] && Unpack(a)[7] == Unpack(b)[7];
  }

  /** A checksum is valid if and only if the polynomial of prefix and payload leaves the remainder one. */
  lemma ChecksExact(prefix: string, payload: seq<Value>)
    ensures Checks(prefix, payload) <==>
            exists q :: Divides(Poly(ExpandPrefix(prefix) + payload), q, [0, 0, 0, 0, 0, 0, 0, 1])
  {
    hide Run, Divides;
    var v := ExpandPrefix(prefix) + payload;
    UnpackOne();
    RemainderExact(v, Unpack(1));
    if Unpack(Run(1, v)) == Unpack(1) {
      UnpackInjective(Run(1, v), 1);
    }
  }

  lemma UnpackOne()
    ensures Unpack(1) == [0, 0, 0, 0, 0, 0, 0, 1]
  {
  }
}
