/** Numbers as digit lists, highest digit first, and the in-place conversion step of src/base58.cpp. */
module Radix {
  import opened Common

  function Pow(b: nat, n: nat): (r: nat)
    ensures b >= 1 ==> r >= 1
  {
    if n == 0 then 1 else b * Pow(b, n - 1)
  }

  lemma {:induction false} PowAdd(b: nat, m: nat, n: nat)
    ensures Pow(b, m + n) == Pow(b, m) * Pow(b, n)
    decreases n
  {
    if n > 0 {
      PowAdd(b, m, n - 1);
      assert Pow(b, m) * (b * Pow(b, n - 1)) == b * (Pow(b, m) * Pow(b, n - 1));
    }
  }

  lemma {:induction false} PowMonotone(a: nat, b: nat, n: nat)
    requires a <= b
    ensures Pow(a, n) <= Pow(b, n)
  {
    if n > 0 {
      PowMonotone(a, b, n - 1);
      MulMonotone(a, b, Pow(a, n - 1));
      MulMonotone(Pow(a, n - 1), Pow(b, n - 1), b);
    }
  }

  lemma {:induction false} PowStrict(a: nat, b: nat, n: nat)
    requires a < b && n > 0
    ensures Pow(a, n) < Pow(b, n)
  {
    if n == 1 {
      assert Pow(a, 0) == 1 && Pow(b, 0) == 1;
    } else {
      PowStrict(a, b, n - 1);
      MulMonotone(a, b, Pow(a, n - 1));
      MulMonotone(Pow(a, n - 1) + 1, Pow(b, n - 1), b);
      assert (Pow(a, n - 1) + 1) * b == Pow(a, n - 1) * b + b;
    }
  }

  lemma {:induction false} PowPow(b: nat, m: nat, n: nat)
    ensures Pow(Pow(b, m), n) == Pow(b, m * n)
  {
    if n == 0 {
      assert m * n == 0;
    } else {
      PowPow(b, m, n - 1);
      PowAdd(b, m, m * (n - 1));
      assert m + m * (n - 1) == m * n;
    }
  }

  lemma {:induction false} PowGrows(b: nat, m: nat, n: nat)
    requires b >= 1 && m <= n
    ensures Pow(b, m) <= Pow(b, n)
  {
    if m < n {
      PowGrows(b, m, n - 1);
      MulMonotone(1, b, Pow(b, n - 1));
    }
  }

  /** If `p` digits of base `m` always fit in `q` digits of base `b`, then `n` digits fit in `k` as soon as
      `k / n` is at least `q / p`. */
  lemma DigitsFit(m: nat, b: nat, p: nat, q: nat, n: nat, k: nat)
    requires b >= 1 && p > 0 && Pow(m, p) <= Pow(b, q) && q * n <= p * k
    ensures Pow(m, n) <= Pow(b, k)
  {
    hide Pow;
    Swap(m, p, n);
    PowMonotone(Pow(m, p), Pow(b, q), n);
    PowChain(b, q, n, p, k);
    Root(Pow(m, n), Pow(b, k), p);
  }

  lemma PowChain(b: nat, q: nat, n: nat, p: nat, k: nat)
    requires b >= 1 && q * n <= p * k
    ensures Pow(Pow(b, q), n) <= Pow(Pow(b, k), p)
  {
    hide Pow;
    PowPow(b, q, n);
    PowPow(b, p, k);
    Swap(b, p, k);
    PowGrows(b, q * n, p * k);
  }

  lemma Root(x: nat, y: nat, p: nat)
    requires p > 0 && Pow(x, p) <= Pow(y, p)
    ensures x <= y
  {
    hide Pow;
    if x > y {
      PowStrict(y, x, p);
    }
  }

  lemma Swap(b: nat, m: nat, n: nat)
    ensures Pow(Pow(b, m), n) == Pow(Pow(b, n), m)
  {
    hide Pow;
    PowPow(b, m, n);
    PowPow(b, n, m);
    assert m * n == n * m;
  }

  // ---------------------------------------------------------------- digit lists

  /** The number that a list of digits stands for. */
  ghost function Val(s: seq<nat>, b: nat): nat {
    if s == [] then 0 else Val(s[..|s| - 1], b) * b + s[|s| - 1]
  }

  ghost predicate Digits(s: seq<nat>, b: nat) {
    forall i :: 0 <= i < |s| ==> s[i] < b
  }

  lemma ValSnoc(s: seq<nat>, x: nat, b: nat)
    ensures Val(s + [x], b) == Val(s, b) * b + x
  {
  }

  lemma {:induction false} ValCons(x: nat, s: seq<nat>, b: nat)
    ensures Val([x] + s, b) == x * Pow(b, |s|) + Val(s, b)
    decreases |s|
  {
    if s == [] {
      assert [x] + s == [x] && [x][..0] == [];
      assert Val([], b) == 0 && Pow(b, 0) == 1;
    } else {
      var n := |s| - 1;
      assert ([x] + s)[..|s|] == [x] + s[..n];
      ValCons(x, s[..n], b);
      assert (x * Pow(b, n) + Val(s[..n], b)) * b == x * (b * Pow(b, n)) + Val(s[..n], b) * b;
    }
  }

  lemma {:induction false} ValBound(s: seq<nat>, b: nat)
    requires Digits(s, b)
    ensures Val(s, b) < Pow(b, |s|)
    decreases |s|
  {
    if s != [] {
      var n := |s| - 1;
      ValBound(s[..n], b);
      MulMonotone(Val(s[..n], b) + 1, Pow(b, n), b);
      assert (Val(s[..n], b) + 1) * b == Val(s[..n], b) * b + b;
    }
  }

  lemma {:induction false} ValZeros(z: nat, s: seq<nat>, b: nat)
    requires z <= |s| && forall i :: 0 <= i < z ==> s[i] == 0
    ensures Val(s, b) == Val(s[z..], b)
    decreases z
  {
    if z == 0 {
      assert s[0..] == s;
    } else {
      ValZeros(z - 1, s, b);
      assert s[z - 1..] == [0] + s[z..];
      ValCons(0, s[z..], b);
    }
  }

  /** A list without a leading zero. */
  ghost predicate Minimal(s: seq<nat>, b: nat) {
    Digits(s, b) && (s != [] ==> s[0] != 0)
  }

  lemma MinimalBound(s: seq<nat>, b: nat)
    requires b >= 2 && Minimal(s, b) && s != []
    ensures Pow(b, |s| - 1) <= Val(s, b) < Pow(b, |s|)
  {
    ValBound(s, b);
    assert s == [s[0]] + s[1..];
    ValCons(s[0], s[1..], b);
    MulMonotone(1, s[0], Pow(b, |s| - 1));
  }

  /** A number has only one list without a leading zero. */
  lemma {:induction false} MinimalUnique(s: seq<nat>, t: seq<nat>, b: nat)
    requires b >= 2 && Minimal(s, b) && Minimal(t, b) && Val(s, b) == Val(t, b)
    ensures s == t
  {
    hide Pow;
    if s == [] && t == [] {
    } else if s == [] {
      MinimalBound(t, b);
    } else if t == [] {
      MinimalBound(s, b);
    } else {
      MinimalBound(s, b);
      MinimalBound(t, b);
      if |s| < |t| {
        PowGrows(b, |s|, |t| - 1);
        assert false;
      } else if |t| < |s| {
        PowGrows(b, |t|, |s| - 1);
        assert false;
      }
      SameDigits(s, t, b);
    }
  }

  lemma {:induction false} SameDigits(s: seq<nat>, t: seq<nat>, b: nat)
    requires |s| == |t| && Digits(s, b) && Digits(t, b) && Val(s, b) == Val(t, b)
    ensures s == t
    decreases |s|
  {
    if s != [] {
      var n := |s| - 1;
      LastDigit(Val(s[..n], b), s[n], Val(t[..n], b), t[n], b);
      SameDigits(s[..n], t[..n], b);
      assert s == s[..n] + [s[n]] && t == t[..n] + [t[n]];
    }
  }

  lemma LastDigit(v: nat, x: nat, w: nat, y: nat, b: nat)
    requires x < b && y < b && v * b + x == w * b + y
    ensures v == w && x == y
  {
    if v < w {
      assert (v + 1) * b == v * b + b;
      MulMonotone(v + 1, w, b);
    } else if w < v {
      assert (w + 1) * b == w * b + b;
      MulMonotone(w + 1, v, b);
    }
  }

  // ---------------------------------------------------------------- multiply and add, in place

  /** The lowest digits from `p` on are done, with a carry left over. */
  ghost predicate Done(now: seq<nat>, was: seq<nat>, b: nat, mult: nat, ch: nat, p: nat, carry: nat)
    requires |now| == |was| && p <= |now|
  {
    Val(now[p..], b) + carry * Pow(b, |now| - p) == mult * Val(was[p..], b) + ch
  }

  lemma DoneStart(was: seq<nat>, b: nat, mult: nat, ch: nat)
    ensures Done(was, was, b, mult, ch, |was|, ch)
  {
  }

  /** A digit's new value before it is split into the digit and the carry. */
  function Acc(carry: nat, mult: nat, x: nat): nat {
    carry + mult * x
  }

  function Low(n: nat, b: nat): (r: nat)
    requires b > 0
    ensures r < b
  {
    n % b
  }

  function High(n: nat, b: nat): (r: nat)
    requires b > 0
    ensures n == r * b + Low(n, b)
  {
    n / b
  }

  lemma PowNext(b: nat, n: nat)
    ensures Pow(b, n + 1) == b * Pow(b, n)
  {
  }

  lemma DoneStep(now: seq<nat>, was: seq<nat>, b: nat, mult: nat, ch: nat, p: nat, carry: nat)
    requires b > 0 && |now| == |was| && p < |now| && Done(now, was, b, mult, ch, p + 1, carry) && now[p] == was[p]
    ensures
      var n := Acc(carry, mult, was[p]);
      Done(now[p := Low(n, b)], was, b, mult, ch, p, High(n, b))
  {
    hide Val, Pow, Low, High;
    var n := Acc(carry, mult, was[p]);
    var next := now[p := Low(n, b)];
    assert next[p..] == [Low(n, b)] + now[p + 1..] && was[p..] == [was[p]] + was[p + 1..];
    ValCons(Low(n, b), now[p + 1..], b);
    ValCons(was[p], was[p + 1..], b);
    PowNext(b, |now| - p - 1);
    StepSum(Low(n, b), High(n, b), b, Pow(b, |now| - p - 1), Val(now[p + 1..], b), carry, mult, was[p],
            Val(was[p + 1..], b), ch, n);
  }

  lemma StepSum(low: nat, high: nat, b: nat, w: nat, v: nat, carry: nat, mult: nat, x: nat, tail: nat, ch: nat, n: nat)
    requires n == carry + mult * x && n == high * b + low && v + carry * w == mult * tail + ch
    ensures low * w + v + high * (b * w) == mult * (x * w + tail) + ch
  {
  }

  /** The leading digits, beyond the length in use, are zero. */
  ghost predicate ZeroAbove(s: seq<nat>, length: nat) {
    length <= |s| && forall j :: 0 <= j < |s| - length ==> s[j] == 0
  }

  /** Replaces a number by `mult` times it plus `ch`. It stops when nothing is left to carry and all digits in
      use have been seen; with enough room nothing is ever left over. */
  method MultiplyAdd(digits: array<nat>, b: nat, mult: nat, ch: nat, length: nat) returns (used: nat)
    requires b >= 2 && Digits(digits[..], b) && ZeroAbove(digits[..], length)
    requires mult * Val(digits[..], b) + ch < Pow(b, digits.Length)
    modifies digits
    ensures Digits(digits[..], b) && ZeroAbove(digits[..], used)
    ensures Val(digits[..], b) == mult * Val(old(digits[..]), b) + ch
  {
    hide Val, Pow, Done, Acc, Low, High;
    ghost var was := digits[..];
    var carry: nat, i: nat := ch, 0;
    DoneStart(was, b, mult, ch);
    while (carry != 0 || i < length) && i < digits.Length
      invariant 0 <= i <= digits.Length && Digits(digits[..], b)
      invariant forall j :: 0 <= j < digits.Length - i ==> digits[j] == was[j]
      invariant Done(digits[..], was, b, mult, ch, digits.Length - i, carry)
      decreases digits.Length - i
    {
      ghost var before := digits[..];
      var p := digits.Length - 1 - i;
      DoneStep(before, was, b, mult, ch, p, carry);
      carry := Acc(carry, mult, digits[p]);
      digits[p] := Low(carry, b);
      assert digits[..] == before[p := Low(carry, b)];
      carry := High(carry, b);
      i := i + 1;
    }
    DoneEnd(digits[..], was, b, mult, ch, digits.Length - i, carry, length);
    assert carry == 0;
    used := i;
  }

  /** Once all digits in use are done, no carry is left, if the result fits. */
  lemma DoneEnd(now: seq<nat>, was: seq<nat>, b: nat, mult: nat, ch: nat, p: nat, carry: nat, length: nat)
    requires b >= 2 && |now| == |was| && p <= |now| && Done(now, was, b, mult, ch, p, carry)
    requires (carry == 0 && |now| - p >= length) || p == 0
    requires ZeroAbove(was, length) && forall j :: 0 <= j < p ==> now[j] == was[j]
    requires mult * Val(was, b) + ch < Pow(b, |was|)
    ensures carry == 0 && ZeroAbove(now, |now| - p) && Val(now, b) == mult * Val(was, b) + ch
  {
    ValZeros(p, was, b);
    ValZeros(p, now, b);
    if carry != 0 {
      MulMonotone(1, carry, Pow(b, |now|));
    }
  }
}
