/** The 256-bit integer (src/arith_uint256.h, src/arith_uint256.cpp): eight limbs that the operators
    change in place, proved to compute on natural numbers modulo 2^256. */
module Arith256 {
  import opened Common
  import opened Limbs
  import opened LimbOps

  class ArithUint256 {
    const pn: array<Limb>

    ghost predicate Valid() {
      pn.Length == WIDTH
    }

    ghost function Value(): nat
      requires Valid()
      reads pn
    {
      Val(pn[..], WIDTH)
    }

    /** A number below 2^64. */
    constructor (b: nat)
      requires b < 0x1_0000_0000_0000_0000
      ensures Valid() && fresh(pn) && Value() == b
    {
      pn := new Limb[WIDTH](_ => 0);
      new;
      pn[0] := Low(b);
      pn[1] := High(b);
      assert pn[..] == [Low(b), High(b), 0, 0, 0, 0, 0, 0];
      ValZero(pn[..], 2, WIDTH);
      assert Val(pn[..], 1) == Low(b);
    }

    /** Becomes a number below 2^64. */
    method Assign(b: nat)
      requires Valid() && b < 0x1_0000_0000_0000_0000
      modifies pn
      ensures Value() == b
    {
      pn[0] := Low(b);
      pn[1] := High(b);
      for i := 2 to WIDTH
        invariant pn[0] == Low(b) && pn[1] == High(b) && forall j :: 2 <= j < i ==> pn[j] == 0
      {
        pn[i] := 0;
      }
      ValZero(pn[..], 2, WIDTH);
      TwoLimbs(pn[..]);
    }

    constructor Copy(b: ArithUint256)
      requires b.Valid()
      ensures Valid() && fresh(pn) && pn[..] == b.pn[..] && Value() == b.Value()
    {
      pn := new Limb[WIDTH](i requires 0 <= i < WIDTH reads b.pn => b.pn[i]);
      new;
      assert pn[..] == b.pn[..];
    }

    method AddAssign(b: ArithUint256)
      requires Valid() && b.Valid()
      modifies pn
      ensures Value() == (old(Value()) + old(b.Value())) % P(WIDTH)
    {
      hide Val, P, Low, High;
      ghost var s, t := pn[..], b.pn[..];
      var carry := 0;
      AddStart(s, t);
      for i := 0 to WIDTH
        invariant carry <= 1
        invariant forall j :: i <= j < WIDTH ==> pn[j] == s[j] && b.pn[j] == t[j]
        invariant Added(pn[..], s, t, i, carry)
      {
        ghost var before := pn[..];
        var n: nat := carry + pn[i] + b.pn[i];
        AddStep(before, s, t, i, carry, n);
        pn[i] := Low(n);
        carry := High(n);
        assert pn[..] == before[i := Low(n)];
      }
      AddEnd(pn[..], s, t, carry);
    }

    /** Adds one. */
    method Increment()
      requires Valid()
      modifies pn
      ensures Value() == (old(Value()) + 1) % P(WIDTH)
    {
      hide Val, P;
      ghost var s := pn[..];
      var i := 0;
      IncStep(s, 0);
      pn[0] := Successor(pn[0]);
      assert pn[..] == s[0 := Successor(s[0])];
      FirstWeight();
      while pn[i] == 0 && i < WIDTH - 1
        invariant 0 <= i < WIDTH
        invariant Val(pn[..], WIDTH) + (if pn[i] == 0 then P(i + 1) else 0) == Val(s, WIDTH) + 1
      {
        i := i + 1;
        ghost var before := pn[..];
        IncStep(before, i);
        pn[i] := Successor(pn[i]);
        assert pn[..] == before[i := Successor(before[i])];
      }
      ValBound(pn[..], WIDTH);
      IsMod(Val(pn[..], WIDTH), if pn[i] == 0 then (if i == WIDTH - 1 then 1 else 0) else 0, P(WIDTH),
            Val(s, WIDTH) + 1);
    }

    /** All bits flipped. */
    method Complement() returns (r: ArithUint256)
      requires Valid()
      ensures fresh(r) && fresh(r.pn) && r.Valid() && r.Value() == P(WIDTH) - 1 - Value()
    {
      r := new ArithUint256(0);
      for i := 0 to WIDTH
        invariant forall j :: 0 <= j < i ==> r.pn[j] == Flip(pn[j])
        invariant pn[..] == old(pn[..])
      {
        r.pn[i] := Flip(pn[i]);
      }
      FlipAll(r.pn[..], pn[..], WIDTH);
    }

    method Negate() returns (r: ArithUint256)
      requires Valid()
      ensures fresh(r) && fresh(r.pn) && r.Valid() && r.Value() == (0 - Value()) % P(WIDTH)
    {
      hide Val, P;
      r := Complement();
      r.Increment();
      ValBound(r.pn[..], WIDTH);
      NegateMod(Val(pn[..], WIDTH), P(WIDTH));
    }

    method SubAssign(b: ArithUint256)
      requires Valid() && b.Valid()
      modifies pn
      ensures Value() == (old(Value()) - old(b.Value())) % P(WIDTH)
    {
      hide Val, P;
      var minus := b.Negate();
      AddAssign(minus);
      AddMod(old(Value()), 0 - old(b.Value()), P(WIDTH));
    }

    /** Sets all limbs to zero. */
    method SetZero()
      requires Valid()
      modifies pn
      ensures forall j :: 0 <= j < WIDTH ==> pn[j] == 0
      ensures Value() == 0
    {
      for i := 0 to WIDTH
        invariant forall j :: 0 <= j < i ==> pn[j] == 0
      {
        pn[i] := 0;
      }
      ValZero(pn[..], 0, WIDTH);
    }

    method MulAssign32(b32: Limb)
      requires Valid()
      modifies pn
      ensures Value() == old(Value()) * b32 % P(WIDTH)
    {
      hide Val, P, Low, High;
      ghost var s := pn[..];
      var carry: nat := 0;
      ScaleStart(s, b32);
      for i := 0 to WIDTH
        invariant carry < BASE && forall j :: i <= j < WIDTH ==> pn[j] == s[j]
        invariant Scaled(pn[..], s, b32, i, carry)
      {
        ghost var before := pn[..];
        var x: nat := pn[i];
        var n: nat := carry + b32 * x;
        ScaleStep(before, s, b32, i, carry, n);
        pn[i] := Low(n);
        carry := High(n);
        assert pn[..] == before[i := Low(n)];
      }
      ScaleEnd(pn[..], s, b32, carry);
    }

    /** Multiplies by another number. An object multiplied by itself in place becomes zero, since it is
        cleared before it is read as the second factor. */
    method MulAssign(b: ArithUint256)
      requires Valid() && b.Valid()
      modifies pn
      ensures b.pn != pn ==> Value() == old(Value()) * old(b.Value()) % P(WIDTH)
      ensures b.pn == pn ==> Value() == 0
      ensures Value() == old(Value()) * old(b.Value()) % P(WIDTH) <==> b.pn != pn || old(Value()) % Pow2(128) == 0
    {
      hide Val, P, Low, High, Multiplied, Pow2;
      SquareVanishes(Value(), WIDTH);
      var a := new ArithUint256.Copy(this);
      ghost var va, vb := pn[..], b.pn[..];
      SetZero();
      ghost var lost := 0;
      MultipliedStart(pn[..], va, vb);
      for j := 0 to WIDTH
        modifies pn
        invariant b.pn != pn ==> b.pn[..] == vb && Multiplied(pn[..], va, vb, j, lost)
        invariant b.pn == pn ==> forall m :: 0 <= m < WIDTH ==> pn[m] == 0
      {
        ghost var was := pn[..];
        var carry := AddMultiple(a.pn[j], b, j);
        if b.pn != pn {
          lost := MultipliedStep(pn[..], was, va, vb, j, carry, lost);
        }
      }
      if b.pn != pn {
        MultipliedEnd(pn[..], va, vb, lost);
      } else {
        ValZeroAll(pn[..]);
      }
    }

    /** Adds `x * b`, shifted by `j` limbs. */
    method AddMultiple(x: Limb, b: ArithUint256, j: nat) returns (carry: nat)
      requires Valid() && b.Valid() && j < WIDTH
      requires b.pn == pn ==> forall m :: 0 <= m < WIDTH ==> pn[m] == 0
      modifies pn
      ensures b.pn != pn ==> Partial(pn[..], old(pn[..]), x, b.pn[..], WIDTH - j, j, carry)
      ensures b.pn == pn ==> forall m :: 0 <= m < WIDTH ==> pn[m] == 0
    {
      hide Val, P, Partial;
      ghost var was := pn[..];
      carry := 0;
      PartialStart(was, x, b.pn[..], j);
      for i := 0 to WIDTH - j
        invariant carry < BASE
        invariant b.pn != pn ==> b.pn[..] == old(b.pn[..]) && Partial(pn[..], was, x, b.pn[..], i, j, carry)
        invariant b.pn == pn ==> carry == 0 && forall m :: 0 <= m < WIDTH ==> pn[m] == 0
      {
        ghost var before := pn[..];
        var y: nat, z: nat := pn[i + j], b.pn[i];
        var n: nat := carry + y + x * z;
        if b.pn != pn {
          PartialStep(before, was, x, b.pn[..], i, j, carry, n);
        }
        pn[i + j] := Low(n);
        carry := High(n);
        assert pn[..] == before[i + j := Low(n)];
      }
    }

    method ShiftLeftAssign(shift: nat)
      requires Valid()
      modifies pn
      ensures Value() == old(Value()) * Pow2(shift) % P(WIDTH)
    {
      hide Val, P, Pow2, ShiftedUp, OrLimb, ShiftUp, ShiftDown;
      var a := pn[..];
      SetZero();
      var k, s := shift / 32, shift % 32;
      if k <= WIDTH {
        ShiftUpStart(pn[..], a, k, s);
      }
      for i := 0 to WIDTH
        invariant k <= WIDTH ==> ShiftedUp(pn[..], a, if i + k <= WIDTH then i else WIDTH - k, k, s)
        invariant k > WIDTH ==> forall j :: 0 <= j < WIDTH ==> pn[j] == 0
      {
        ghost var before := pn[..];
        if i + k + 1 < WIDTH && s != 0 {
          pn[i + k + 1] := OrLimb(pn[i + k + 1], ShiftDown(a[i], 32 - s));
        }
        if i + k < WIDTH {
          pn[i + k] := OrLimb(pn[i + k], ShiftUp(a[i], s));
          ShiftUpStep(before, pn[..], a, i, k, s);
        }
      }
      if k <= WIDTH {
        ShiftUpEnd(pn[..], a, k, s);
      } else {
        ValZeroAll(pn[..]);
        ShiftUpAll(a, shift);
      }
    }

    method ShiftRightAssign(shift: nat)
      requires Valid()
      modifies pn
      ensures Value() == old(Value()) / Pow2(shift)
    {
      hide Val, P, Pow2, ShiftedDown, OrLimb, ShiftUp, ShiftDown;
      var a := pn[..];
      SetZero();
      var k, s := shift / 32, shift % 32;
      ShiftDownStart(pn[..], a, 0, k, s);
      for i := 0 to WIDTH
        invariant ShiftedDown(pn[..], a, i, k, s)
        invariant i <= k ==> forall j :: 0 <= j < WIDTH ==> pn[j] == 0
      {
        ghost var before := pn[..];
        if i - k - 1 >= 0 && s != 0 {
          pn[i - k - 1] := OrLimb(pn[i - k - 1], ShiftUp(a[i], 32 - s));
        }
        if i - k >= 0 {
          pn[i - k] := OrLimb(pn[i - k], ShiftDown(a[i], s));
        }
        if i < k {
          ShiftDownStart(pn[..], a, i + 1, k, s);
        } else if i == k {
          assert pn[..] == before[0 := OrLimb(before[0], ShiftDown(a[k], s))];
          ShiftDownFirst(before, pn[..], a, k, s);
        } else {
          ShiftDownStep(before, pn[..], a, i, k, s);
        }
      }
      ShiftDownEnd(pn[..], a, k, s);
    }

    /** Negative, zero or positive, as this number is less than, equal to or greater than the other. */
    method CompareTo(b: ArithUint256) returns (r: int)
      requires Valid() && b.Valid()
      ensures r < 0 <==> Value() < b.Value()
      ensures r > 0 <==> Value() > b.Value()
    {
      hide Val, P;
      ghost var s, t := pn[..], b.pn[..];
      var i := WIDTH - 1;
      while i >= 0
        invariant -1 <= i < WIDTH
        invariant Val(s, WIDTH) - Val(s, i + 1) == Val(t, WIDTH) - Val(t, i + 1)
      {
        LimbDecides(s, t, i);
        if pn[i] < b.pn[i] {
          return -1;
        }
        if pn[i] > b.pn[i] {
          return 1;
        }
        i := i - 1;
      }
      EmptyValue(s);
      EmptyValue(t);
      return 0;
    }

    /** Whether the number equals one below 2^64. */
    method EqualTo(b: nat) returns (r: bool)
      requires Valid() && b < BASE * BASE
      ensures r <==> Value() == b
    {
      hide Val, P;
      ghost var s := pn[..];
      var i := WIDTH - 1;
      while i >= 2
        invariant 1 <= i < WIDTH
        invariant Val(s, WIDTH) == Val(s, i + 1)
      {
        TopLimb(s, i);
        if pn[i] != 0 {
          LargeValue(s, i);
          return false;
        }
        i := i - 1;
      }
      TwoLimbs(s);
      return pn[1] == b / BASE && pn[0] == b % BASE;
    }

    method GetLow64() returns (r: nat)
      requires Valid()
      ensures r == Value() % Pow2(64)
    {
      hide Val, P;
      var x: nat, y: nat := pn[0], pn[1];
      r := Or(x, y * BASE);
      LowPart(pn[..], x, y);
    }

    /** The position of the highest set bit plus one, or zero. */
    method Bits() returns (r: nat)
      requires Valid()
      ensures r <= 256 && IsBits(Value(), r)
    {
      hide Val, P, Pow2;
      ghost var s := pn[..];
      var pos := WIDTH - 1;
      while pos >= 0
        invariant -1 <= pos < WIDTH
        invariant Val(s, WIDTH) == Val(s, pos + 1)
      {
        TopLimb(s, pos);
        if pn[pos] != 0 {
          var bits := 31;
          Pow2Values();
          while bits > 0
            invariant 0 <= bits <= 31 && pn[pos] < Pow2(bits + 1)
          {
            if pn[pos] / Pow2(bits) % 2 == 1 {
              TopBit(s, pos, bits);
              return 32 * pos + bits + 1;
            }
            ClearBit(pn[pos], bits);
            bits := bits - 1;
          }
          OneBit(pn[pos]);
          TopBit(s, pos, 0);
          return 32 * pos + 1;
        }
        pos := pos - 1;
      }
      EmptyValue(s);
      return 0;
    }

    /** Takes one bit of the quotient. */
    method DivideBit(num: ArithUint256, div: ArithUint256, shift: nat, ghost n: nat, ghost d: nat)
      requires Valid() && num.Valid() && div.Valid() && pn != num.pn && pn != div.pn && num.pn != div.pn && shift < 256
      requires Dividing(n, d, Value(), num.Value(), shift + 1) && LowClear(pn[..], shift)
      requires div.Value() == d * Pow2(shift)
      modifies pn, num.pn
      ensures Dividing(n, d, Value(), num.Value(), shift) && (shift > 0 ==> LowClear(pn[..], shift - 1))
    {
      hide Val, P, Pow2, LowClear, Dividing;
      var cmp := num.CompareTo(div);
      if cmp >= 0 {
        ghost var before, r := pn[..], num.Value();
        ValBound(num.pn[..], WIDTH);
        DivideTake(n, d, Val(before, WIDTH), r, shift, WIDTH);
        SetBitExact(before, shift);
        num.SubAssign(div);
        pn[shift / 32] := OrLimb(pn[shift / 32], BitAt(shift));
        assert pn[..] == before[shift / 32 := OrLimb(before[shift / 32], BitAt(shift))];
      } else {
        DivideSkip(n, d, Value(), num.Value(), shift);
        LowClearSkip(pn[..], shift);
      }
    }

    /** Divides by another number. Division by zero fails, and leaves zero. */
    method DivAssign(b: ArithUint256) returns (ok: bool)
      requires Valid() && b.Valid()
      modifies pn
      ensures ok <==> old(b.Value()) != 0
      ensures if ok then Value() == old(Value()) / old(b.Value()) else Value() == 0
    {
      hide Val, P, Pow2, IsBits, LowClear, Dividing;
      ghost var n, d := Value(), b.Value();
      var div := new ArithUint256.Copy(b);
      var num := new ArithUint256.Copy(this);
      SetZero();
      var numBits := num.Bits();
      var divBits := div.Bits();
      NoBits(d, divBits);
      if divBits == 0 {
        return false;
      }
      if divBits > numBits {
        FewerBits(n, d, numBits, divBits);
        return true;
      }
      var shift: int := numBits - divBits;
      DivideStart(n, d, numBits, divBits, WIDTH);
      div.ShiftLeftAssign(shift);
      LowClearZero(pn[..], shift);
      while shift >= 0
        modifies pn, div.pn, num.pn
        invariant -1 <= shift < 256
        invariant Dividing(n, d, Value(), num.Value(), shift + 1)
        invariant shift >= 0 ==> LowClear(pn[..], shift) && div.Value() == d * Pow2(shift)
      {
        DivideBit(num, div, shift, n, d);
        div.ShiftRightAssign(1);
        if shift > 0 {
          HalfShift(d, shift);
        }
        shift := shift - 1;
      }
      DivideEnd(n, d, Value(), num.Value());
      return true;
    }
  }

  /** One multiplied by itself in place: the result is not the product. */
  method SquareOfOne() returns (x: ArithUint256)
    ensures x.Valid() && x.Value() == 0 && 1 * 1 % P(WIDTH) == 1
  {
    x := new ArithUint256(1);
    x.MulAssign(x);
  }

  lemma TwiceMultiple(n: nat, p: nat)
    requires p > 0
    ensures 2 * n % (2 * p) == 0 <==> n % p == 0
  {
    var q, r := n / p, n % p;
    assert n == q * p + r;
    assert 2 * n == q * (2 * p) + 2 * r;
    IsMod(2 * r, q, 2 * p, 2 * n);
  }

  lemma OddMultiple(n: nat, p: nat)
    requires n % 2 == 1 && p > 0
    ensures n % (2 * p) != 0
  {
    var q := n / (2 * p);
    assert n == 2 * (p * q) + n % (2 * p);
  }

  lemma SquareParts(x: nat, y: nat)
    ensures x == 2 * y ==> x * x == 2 * (2 * (y * y))
    ensures x == 2 * y + 1 ==> x * x % 2 == 1
  {
    if x == 2 * y + 1 {
      assert x * x == 2 * (2 * (y * y) + 2 * y) + 1;
    }
  }

  /** One bit of a square's divisor stands for half a bit of the root's. */
  lemma SquareHalves(x: nat, y: nat, p: nat, q: nat)
    requires p > 0 && q > 0 && y == x / 2 && (y * y % q == 0 <==> y % p == 0)
    ensures x * x % (2 * (2 * q)) == 0 <==> x % (2 * p) == 0
  {
    SquareParts(x, y);
    var xx, yy := x * x, y * y;
    if x % 2 == 0 {
      TwiceMultiple(2 * yy, 2 * q);
      TwiceMultiple(yy, q);
      TwiceMultiple(y, p);
    } else {
      OddMultiple(xx, 2 * q);
      OddMultiple(x, p);
    }
  }

  lemma {:induction false} SquareDivides(x: nat, k: nat)
    ensures x * x % Pow2(2 * k) == 0 <==> x % Pow2(k) == 0
  {
    if k == 0 {
      assert x * x % 1 == 0;
    } else {
      SquareDivides(x / 2, k - 1);
      SquareHalves(x, x / 2, Pow2(k - 1), Pow2(2 * (k - 1)));
      assert Pow2(k) == 2 * Pow2(k - 1);
      assert Pow2(2 * k) == 2 * Pow2(2 * k - 1) && Pow2(2 * k - 1) == 2 * Pow2(2 * (k - 1));
    }
  }

  /** When the square of a number is zero in `n` limbs: with eight, for the multiples of 2^128. */
  lemma SquareVanishes(x: nat, n: nat)
    ensures x * x % P(n) == 0 <==> x % Pow2(16 * n) == 0
  {
    hide P, Pow2;
    SquareDivides(x, 16 * n);
    PIsPow2(n);
  }

  lemma FirstWeight()
    ensures P(0) == 1
  {
  }

  lemma NegateMod(v: nat, p: nat)
    requires v < p
    ensures (p - 1 - v + 1) % p == (0 - v) % p
  {
  }

  lemma AddMod(a: int, b: int, p: nat)
    requires p > 0
    ensures (a + b % p) % p == (a + b) % p
  {
    var x := a + b % p;
    assert x == x / p * p + x % p;
    assert b == b / p * p + b % p;
    assert (x / p + b / p) * p == x / p * p + b / p * p;
    IsMod(x % p, x / p + b / p, p, a + b);
  }

  lemma ScaleStart(s: seq<Limb>, b32: nat)
    ensures Scaled(s, s, b32, 0, 0)
  {
  }

  lemma ScaleEnd(now: seq<Limb>, s: seq<Limb>, b32: nat, carry: nat)
    requires |now| == |s| && Scaled(now, s, b32, |now|, carry)
    ensures Val(now, |now|) == Val(s, |now|) * b32 % P(|now|)
  {
    hide Val, P;
    ValBound(now, |now|);
    assert Val(s, |now|) + (b32 - 1) * Val(s, |now|) == Val(s, |now|) * b32;
    IsMod(Val(now, |now|), carry, P(|now|), Val(s, |now|) * b32);
  }

  lemma MultipliedStart(now: seq<Limb>, a: seq<Limb>, b: seq<Limb>)
    requires |now| == |a| == |b| == WIDTH && Val(now, WIDTH) == 0
    ensures Multiplied(now, a, b, 0, 0)
  {
  }

  lemma ValZeroAll(s: seq<Limb>)
    requires |s| == WIDTH && forall j :: 0 <= j < WIDTH ==> s[j] == 0
    ensures Val(s, WIDTH) == 0
  {
    ValZero(s, 0, WIDTH);
  }

  lemma ShiftUpAll(a: seq<Limb>, shift: nat)
    requires shift >= 32 * |a|
    ensures Val(a, |a|) * Pow2(shift) % P(|a|) == 0
  {
    hide Val, P, Pow2;
    PIsPow2(|a|);
    var r := shift - 32 * |a|;
    Pow2Add(32 * |a|, r);
    var v, p, q := Val(a, |a|), P(|a|), Pow2(r);
    assert v * (p * q) == v * q * p;
    IsMod(0, v * q, p, v * (p * q));
  }

  lemma ShiftDownStart(now: seq<Limb>, a: seq<Limb>, i: nat, k: nat, s: nat)
    requires |now| == |a| == WIDTH && i <= WIDTH && i <= k && s < 32 && forall j :: 0 <= j < WIDTH ==> now[j] == 0
    ensures ShiftedDown(now, a, i, k, s)
  {
  }

  lemma EmptyValue(s: seq<Limb>)
    ensures Val(s, 0) == 0
  {
  }

  lemma TopLimb(s: seq<Limb>, i: nat)
    requires i < |s|
    ensures Val(s, i + 1) == Val(s, i) + s[i] * P(i)
    ensures s[i] == 0 ==> Val(s, i + 1) == Val(s, i)
  {
  }

  lemma LimbDecides(s: seq<Limb>, t: seq<Limb>, i: nat)
    requires i < |s| && i < |t|
    ensures s[i] < t[i] ==> Val(s, i + 1) < Val(t, i + 1)
    ensures s[i] > t[i] ==> Val(s, i + 1) > Val(t, i + 1)
    ensures s[i] == t[i] ==> Val(s, i + 1) - Val(s, i) == Val(t, i + 1) - Val(t, i)
  {
    ValBound(s, i);
    ValBound(t, i);
    var x: nat, y: nat, p := s[i], t[i], P(i);
    assert (x + 1) * p == x * p + p && (y + 1) * p == y * p + p;
    if x < y {
      MulMonotone(x + 1, y, p);
    } else if y < x {
      MulMonotone(y + 1, x, p);
    }
  }

  lemma LargeValue(s: seq<Limb>, i: nat)
    requires 2 <= i < |s| && s[i] != 0
    ensures Val(s, i + 1) >= BASE * BASE
  {
  }

  lemma TwoLimbs(s: seq<Limb>)
    requires |s| >= 2
    ensures Val(s, 2) == s[0] + s[1] * BASE
  {
    assert P(1) == BASE * P(0);
    assert Val(s, 1) == s[0];
  }

  lemma LowPart(s: seq<Limb>, x: nat, y: nat)
    requires |s| == WIDTH && x == s[0] && y == s[1]
    ensures Or(x, y * BASE) == Val(s, WIDTH) % Pow2(64)
  {
    TwoLimbs(s);
    var q := ValHigh(s, 2, WIDTH);
    PIsPow2(2);
    ValBound(s, 2);
    Pow2Values();
    hide Val, P, Pow2;
    IsMod(0, y, BASE, y * BASE);
    OrDisjoint(y * BASE, x, 32);
    IsMod(x + y * BASE, q, Pow2(64), Val(s, WIDTH));
  }

  /** A number has `n` bits. */
  ghost predicate IsBits(v: nat, n: nat) {
    if n == 0 then v == 0 else Pow2(n - 1) <= v < Pow2(n)
  }

  lemma ClearBit(x: nat, n: nat)
    requires x < Pow2(n + 1) && x / Pow2(n) % 2 != 1
    ensures x < Pow2(n)
  {
    var p := Pow2(n);
    assert x == x / p * p + x % p;
    hide Pow2;
    if x / p >= 2 {
      MulMonotone(2, x / p, p);
    }
  }

  lemma OneBit(x: nat)
    requires 0 < x < Pow2(1)
    ensures x / Pow2(0) % 2 == 1 && x == 1
  {
  }

  lemma TopBit(s: seq<Limb>, pos: nat, n: nat)
    requires pos < |s| && n < 32 && s[pos] < Pow2(n + 1) && s[pos] / Pow2(n) % 2 == 1
    ensures IsBits(Val(s, pos + 1), 32 * pos + n + 1)
  {
    hide P, Pow2;
    ValBound(s, pos);
    PIsPow2(pos);
    Pow2Add(32 * pos, n);
    Pow2Add(32 * pos, n + 1);
    var x: nat, v := s[pos], Val(s, pos);
    assert Val(s, pos + 1) == v + x * P(pos);
    hide Val;
    OddQuotient(x, Pow2(n));
    MulMonotone(Pow2(n), x, P(pos));
    BelowProduct(v, x, P(pos), Pow2(n + 1));
  }

  lemma OddQuotient(x: nat, q: nat)
    requires q > 0 && x / q % 2 == 1
    ensures x >= q
  {
  }

  // ---------------------------------------------------------------- division

  /** The quotient has all bits from `k` on, and `r` is what is left. */
  ghost predicate Dividing(n: nat, d: nat, q: nat, r: nat, k: nat) {
    n == q * d + r && r < d * Pow2(k)
  }

  function BitAt(shift: nat): Limb {
    Pow2Values();
    Pow2Monotone(shift % 32 + 1, 32);
    Pow2(shift % 32)
  }

  /** The bits up to and including `shift` are not set. */
  ghost predicate LowClear(s: seq<Limb>, shift: nat)
    requires |s| == WIDTH && shift < 256
  {
    (forall j :: 0 <= j < shift / 32 ==> s[j] == 0) && s[shift / 32] % Pow2(shift % 32 + 1) == 0
  }

  lemma LowClearZero(s: seq<Limb>, shift: nat)
    requires |s| == WIDTH && shift < 256 && forall j :: 0 <= j < WIDTH ==> s[j] == 0
    ensures LowClear(s, shift)
  {
    hide Pow2;
    IsMod(0, 0, Pow2(shift % 32 + 1), 0);
  }

  lemma MultipleHalf(x: nat, k: nat)
    requires x % Pow2(k + 1) == 0
    ensures x % Pow2(k) == 0
  {
    var q, p := x / Pow2(k + 1), Pow2(k);
    assert x == q * Pow2(k + 1) == 2 * q * p;
    hide Pow2;
    IsMod(0, 2 * q, p, x);
  }

  lemma LowClearSkip(s: seq<Limb>, shift: nat)
    requires |s| == WIDTH && shift < 256 && LowClear(s, shift)
    ensures shift > 0 ==> LowClear(s, shift - 1)
  {
    hide Pow2;
    MultipleHalf(s[shift / 32], shift % 32);
    ClearBelow(s, s, shift);
  }

  lemma ClearBelow(s: seq<Limb>, t: seq<Limb>, shift: nat)
    requires |s| == |t| == WIDTH && shift < 256 && LowClear(s, shift)
    requires forall j :: 0 <= j < shift / 32 ==> t[j] == s[j]
    requires t[shift / 32] % Pow2(shift % 32) == 0
    ensures shift > 0 ==> LowClear(t, shift - 1)
  {
    hide Pow2;
    if shift > 0 {
      if shift % 32 == 0 {
        assert (shift - 1) / 32 == shift / 32 - 1;
        IsMod(0, 0, Pow2((shift - 1) % 32 + 1), 0);
      } else {
        assert (shift - 1) / 32 == shift / 32 && (shift - 1) % 32 + 1 == shift % 32;
      }
    }
  }

  /** Setting bit `shift` adds its weight. */
  lemma SetBitExact(s: seq<Limb>, shift: nat)
    requires |s| == WIDTH && shift < 256 && LowClear(s, shift)
    ensures
      var t := s[shift / 32 := OrLimb(s[shift / 32], BitAt(shift))];
      Val(t, WIDTH) == Val(s, WIDTH) + Pow2(shift) && (shift > 0 ==> LowClear(t, shift - 1))
  {
    hide Val, P, Pow2, OrLimb, LowClear;
    var pos, k := shift / 32, shift % 32;
    var x: nat := s[pos];
    OrBit(s, shift);
    var z := OrLimb(s[pos], BitAt(shift));
    ValUpdate(s, pos, z, WIDTH);
    PIsPow2(pos);
    Pow2Add(32 * pos, k);
    assert 32 * pos + k == shift;
    assert (z - s[pos]) * P(pos) == Pow2(k) * P(pos);
    ClearBelow(s, s[pos := z], shift);
  }

  lemma OrBit(s: seq<Limb>, shift: nat)
    requires |s| == WIDTH && shift < 256 && LowClear(s, shift)
    ensures
      var k := shift % 32;
      var z := OrLimb(s[shift / 32], BitAt(shift));
      z == s[shift / 32] + Pow2(k) && z % Pow2(k) == 0
  {
    var x: nat, k := s[shift / 32], shift % 32;
    OrDisjoint(x, Pow2(k), k + 1);
    MultipleHalf(x, k);
    hide Pow2;
    SumMultiple(x, Pow2(k));
  }

  lemma SumMultiple(x: nat, p: nat)
    requires p > 0 && x % p == 0
    ensures (x + p) % p == 0
  {
    var q := x / p;
    assert (q + 1) * p == q * p + p;
    IsMod(0, q + 1, p, x + p);
  }

  lemma NoBits(v: nat, n: nat)
    requires IsBits(v, n)
    ensures n == 0 <==> v == 0
  {
  }

  lemma FewerBits(n: nat, d: nat, nb: nat, db: nat)
    requires IsBits(n, nb) && IsBits(d, db) && nb < db
    ensures n / d == 0
  {
    Pow2Monotone(nb, db - 1);
    hide Pow2;
    IsDiv(n, d, 0, n);
  }

  lemma ProductBelow(d: nat, p: nat, q: nat)
    requires d < p && q > 0
    ensures d * q < p * q
  {
    MulMonotone(d + 1, p, q);
    assert (d + 1) * q == d * q + q;
  }

  lemma StartsAbove(n: nat, d: nat, p: nat, q: nat)
    requires n < p * q && p <= d
    ensures n < d * q
  {
    MulMonotone(p, d, q);
  }

  lemma StartBound(n: nat, d: nat, nb: nat, db: nat)
    requires IsBits(n, nb) && IsBits(d, db) && 0 < db <= nb
    ensures n < d * Pow2(nb - db + 1)
  {
    hide Pow2;
    Pow2Add(db - 1, nb - db + 1);
    StartsAbove(n, d, Pow2(db - 1), Pow2(nb - db + 1));
  }

  lemma ShiftFits(d: nat, nb: nat, db: nat, w: nat)
    requires IsBits(d, db) && 0 < db <= nb <= 32 * w
    ensures d * Pow2(nb - db) < P(w)
  {
    hide P, Pow2;
    Pow2Add(db, nb - db);
    ProductBelow(d, Pow2(db), Pow2(nb - db));
    Pow2Monotone(nb, 32 * w);
    PIsPow2(w);
  }

  lemma DivideStart(n: nat, d: nat, nb: nat, db: nat, w: nat)
    requires IsBits(n, nb) && IsBits(d, db) && 0 < db <= nb <= 32 * w
    ensures Dividing(n, d, 0, n, nb - db + 1)
    ensures d * Pow2(nb - db) % P(w) == d * Pow2(nb - db)
  {
    hide P, Pow2, IsBits;
    StartBound(n, d, nb, db);
    ShiftFits(d, nb, db, w);
    SmallRest(d * Pow2(nb - db), P(w));
  }

  lemma SmallRest(x: nat, p: nat)
    requires x < p
    ensures x % p == x
  {
  }

  lemma DivideTake(n: nat, d: nat, q: nat, r: nat, k: nat, w: nat)
    requires Dividing(n, d, q, r, k + 1) && d * Pow2(k) <= r < P(w)
    ensures (r - d * Pow2(k)) % P(w) == r - d * Pow2(k)
    ensures Dividing(n, d, q + Pow2(k), r - d * Pow2(k), k)
  {
    hide P, Pow2;
    Pow2Add(k, 1);
    Pow2One();
    TakeOnce(d, Pow2(k), q, r);
    IsMod(r - d * Pow2(k), 0, P(w), r - d * Pow2(k));
  }

  lemma TakeOnce(d: nat, p: nat, q: nat, r: nat)
    ensures r < d * (p * 2) ==> r - d * p < d * p
    ensures (q + p) * d + (r - d * p) == q * d + r
  {
  }

  lemma Pow2One()
    ensures Pow2(1) == 2
  {
  }

  lemma DivideSkip(n: nat, d: nat, q: nat, r: nat, k: nat)
    requires Dividing(n, d, q, r, k + 1) && r < d * Pow2(k)
    ensures Dividing(n, d, q, r, k)
  {
  }

  lemma DivideEnd(n: nat, d: nat, q: nat, r: nat)
    requires Dividing(n, d, q, r, 0) && d > 0
    ensures q == n / d && r == n % d
  {
    IsDiv(n, d, q, r);
  }

  lemma HalfShift(d: nat, k: nat)
    requires k > 0
    ensures d * Pow2(k) / Pow2(1) == d * Pow2(k - 1)
  {
  }
}
