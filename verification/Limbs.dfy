/** Numbers as lists of 32-bit limbs, lowest first (src/arith_uint256.h). */
module Limbs {
  import opened Common

  const BASE: nat := 0x1_0000_0000

  type Limb = x: nat | x < BASE

  const WIDTH: nat := 8

  /** The low word and the carry of an intermediate result. */
  function Low(n: nat): Limb {
    n % BASE
  }

  function High(n: nat): nat {
    n / BASE
  }

  function Quotient(x: nat, p: nat): (r: nat)
    requires p > 0
    ensures r <= x
  {
    QuotientBound(x, p);
    x / p
  }

  lemma QuotientBound(x: nat, p: nat)
    requires p > 0
    ensures 0 <= x / p <= x
  {
    var q := x / p;
    assert x == q * p + x % p;
    if q > x {
      MulMonotone(1, p, q);
    }
  }

  /** The weight of a limb. */
  ghost function P(i: nat): (r: nat)
    ensures r >= 1
  {
    if i == 0 then 1 else BASE * P(i - 1)
  }

  lemma {:induction false} PIsPow2(i: nat)
    ensures P(i) == Pow2(32 * i)
  {
    if i > 0 {
      PIsPow2(i - 1);
      Pow2Values();
      Pow2Add(32, 32 * (i - 1));
    }
  }

  lemma {:induction false} PAdd(i: nat, j: nat)
    ensures P(i + j) == P(i) * P(j)
    decreases j
  {
    if j > 0 {
      PAdd(i, j - 1);
      assert P(i) * (BASE * P(j - 1)) == BASE * (P(i) * P(j - 1));
    }
  }

  /** The number that the lowest `i` limbs stand for. */
  ghost function Val(s: seq<Limb>, i: nat): nat
    requires i <= |s|
  {
    if i == 0 then 0 else Val(s, i - 1) + s[i - 1] * P(i - 1)
  }

  lemma ValNext(s: seq<Limb>, i: nat)
    requires i < |s|
    ensures Val(s, i + 1) == Val(s, i) + s[i] * P(i)
  {
  }

  lemma {:induction false} ValBound(s: seq<Limb>, i: nat)
    requires i <= |s|
    ensures Val(s, i) < P(i)
  {
    if i > 0 {
      ValBound(s, i - 1);
      var x: nat := s[i - 1];
      MulMonotone(x + 1, BASE, P(i - 1));
      assert (x + 1) * P(i - 1) == x * P(i - 1) + P(i - 1);
    }
  }

  lemma {:induction false} ValSame(s: seq<Limb>, t: seq<Limb>, i: nat)
    requires i <= |s| && i <= |t| && forall j :: 0 <= j < i ==> s[j] == t[j]
    ensures Val(s, i) == Val(t, i)
  {
    if i > 0 {
      ValSame(s, t, i - 1);
    }
  }

  /** Replacing a limb changes the number by the weighted difference. */
  lemma {:induction false} ValUpdate(s: seq<Limb>, m: nat, x: Limb, n: nat)
    requires m < n <= |s|
    ensures Val(s[m := x], n) == Val(s, n) + (x - s[m]) * P(m)
    decreases n
  {
    var t := s[m := x];
    if m == n - 1 {
      ValSame(s, t, m);
      assert (x - s[m]) * P(m) == x * P(m) - s[m] * P(m);
    } else {
      ValUpdate(s, m, x, n - 1);
    }
  }

  lemma {:induction false} ValZero(s: seq<Limb>, lo: nat, n: nat)
    requires lo <= n <= |s| && forall j :: lo <= j < n ==> s[j] == 0
    ensures Val(s, n) == Val(s, lo)
    decreases n
  {
    if lo < n {
      ValZero(s, lo, n - 1);
    }
  }

  /** The limbs from `i` on contribute a multiple of the weight of limb `i`. */
  lemma {:induction false} ValHigh(s: seq<Limb>, i: nat, n: nat) returns (q: nat)
    requires i <= n <= |s|
    ensures Val(s, n) == Val(s, i) + q * P(i)
    decreases n
  {
    if i == n {
      q := 0;
    } else {
      var q0 := ValHigh(s, i, n - 1);
      PAdd(i, n - 1 - i);
      q := q0 + s[n - 1] * P(n - 1 - i);
      Regroup(q0, s[n - 1], P(n - 1 - i), P(i));
    }
  }

  lemma Regroup(q: nat, x: nat, a: nat, b: nat)
    ensures (q + x * a) * b == q * b + x * (b * a)
  {
  }

  /** One step of an addition with carry at limb `m`. */
  lemma CarryStep(s: seq<Limb>, m: nat, n: nat, carry: nat, add: int)
    requires m < |s| && n == carry + s[m] + add
    ensures Val(s[m := Low(n)], |s|) + High(n) * P(m + 1) == Val(s, |s|) + carry * P(m) + add * P(m)
  {
    ValUpdate(s, m, Low(n), |s|);
    Weigh(Low(n), High(n), s[m], carry, add, P(m));
  }

  lemma Weigh(low: nat, high: nat, x: nat, carry: nat, add: int, p: nat)
    requires low + high * BASE == carry + x + add
    ensures (low - x) * p + high * (BASE * p) == carry * p + add * p
  {
  }
}
