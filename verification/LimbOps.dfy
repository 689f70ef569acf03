/** One step of each operator of the 256-bit integer, on lists of limbs. */
module LimbOps {
  import opened Common
  import opened Limbs

  // ---------------------------------------------------------------- words

  /** Bitwise or. */
  function Or(x: nat, y: nat): (r: nat)
    decreases x + y
  {
    if x == 0 then y
    else if y == 0 then x
    else 2 * Or(x / 2, y / 2) + (if x % 2 == 1 || y % 2 == 1 then 1 else 0)
  }

  /** Numbers without common bits are just added. */
  lemma {:induction false} OrDisjoint(x: nat, y: nat, k: nat)
    requires x % Pow2(k) == 0 && y < Pow2(k)
    ensures Or(x, y) == x + y && Or(y, x) == x + y
    decreases k
  {
    if k > 0 && x != 0 && y != 0 {
      HalfMultiple(x, Pow2(k - 1));
      OrDisjoint(x / 2, y / 2, k - 1);
    }
  }

  lemma HalfMultiple(x: nat, p: nat)
    requires p > 0 && x % (2 * p) == 0
    ensures x % 2 == 0 && (x / 2) % p == 0
  {
    var q := x / (2 * p);
    assert x == 2 * p * q == 2 * (p * q);
    assert x / 2 == p * q;
    IsMod(0, q, p, x / 2);
  }

  lemma {:induction false} OrBound(x: nat, y: nat, k: nat)
    requires x < Pow2(k) && y < Pow2(k)
    ensures Or(x, y) < Pow2(k)
    decreases k
  {
    if x != 0 && y != 0 {
      OrBound(x / 2, y / 2, k - 1);
    }
  }

  function OrLimb(x: Limb, y: Limb): Limb {
    Pow2Values();
    OrBound(x, y, 32);
    Or(x, y)
  }

  /** `x << s` and `x >> s` on a limb. */
  function ShiftUp(x: Limb, s: nat): Limb {
    x * Pow2(s) % BASE
  }

  function ShiftDown(x: Limb, s: nat): Limb {
    Quotient(x, Pow2(s))
  }

  /** The bits that a left shift pushes out are those that a right shift by the rest keeps. */
  lemma ShiftSplit(x: Limb, s: nat)
    requires s <= 32
    ensures ShiftUp(x, s) + ShiftDown(x, 32 - s) * BASE == x * Pow2(s)
    ensures ShiftUp(x, s) % Pow2(s) == 0 && ShiftDown(x, 32 - s) < Pow2(s)
  {
    var p, q := Pow2(s), Pow2(32 - s);
    Pow2Values();
    Pow2Add(s, 32 - s);
    hide Pow2;
    SplitProduct(x, p, q);
  }

  lemma SplitProduct(x: nat, p: nat, q: nat)
    requires p > 0 && q > 0 && x < p * q == BASE
    ensures x * p % BASE + x / q * BASE == x * p && (x * p % BASE) % p == 0 && x / q < p
  {
    var h, l := x / q, x % q;
    assert x == h * q + l;
    assert x * p == h * (p * q) + l * p;
    MulMonotone(l + 1, q, p);
    assert (l + 1) * p == l * p + p;
    IsMod(l * p, h, BASE, x * p);
    IsMod(0, l, p, l * p);
    if h >= p {
      MulMonotone(p, h, q);
    }
  }

  // ---------------------------------------------------------------- addition

  /** Where an addition stands after the lowest `i` limbs. */
  ghost predicate Added(now: seq<Limb>, s: seq<Limb>, t: seq<Limb>, i: nat, carry: nat)
    requires |now| == |s| == |t| && i <= |now|
  {
    Val(now, |now|) + carry * P(i) == Val(s, |now|) + Val(t, i)
  }

  lemma AddStart(s: seq<Limb>, t: seq<Limb>)
    requires |s| == |t|
    ensures Added(s, s, t, 0, 0)
  {
  }

  lemma AddStep(now: seq<Limb>, s: seq<Limb>, t: seq<Limb>, i: nat, carry: nat, n: nat)
    requires |now| == |s| == |t| && i < |now| && carry <= 1 && n == carry + now[i] + t[i]
    requires Added(now, s, t, i, carry)
    ensures High(n) <= 1 && Added(now[i := Low(n)], s, t, i + 1, High(n))
  {
    CarryStep(now, i, n, carry, t[i]);
  }

  lemma AddEnd(now: seq<Limb>, s: seq<Limb>, t: seq<Limb>, carry: nat)
    requires |now| == |s| == |t| && Added(now, s, t, |now|, carry)
    ensures Val(now, |now|) == (Val(s, |now|) + Val(t, |now|)) % P(|now|)
  {
    hide P, Val;
    ValBound(now, |now|);
    IsMod(Val(now, |now|), carry, P(|now|), Val(s, |now|) + Val(t, |now|));
  }

  // ---------------------------------------------------------------- increment and complement

  function Successor(x: Limb): Limb {
    if x == BASE - 1 then 0 else x + 1
  }

  lemma IncStep(now: seq<Limb>, m: nat)
    requires m < |now|
    ensures
      var x := Successor(now[m]);
      Val(now[m := x], |now|) + (if x == 0 then P(m + 1) else 0) == Val(now, |now|) + P(m)
  {
    var n: nat := now[m];
    CarryStep(now, m, n + 1, 0, 1);
  }

  function Flip(x: Limb): Limb {
    BASE - 1 - x
  }

  lemma {:induction false} FlipAll(now: seq<Limb>, s: seq<Limb>, i: nat)
    requires i <= |now| && i <= |s| && forall j :: 0 <= j < i ==> now[j] == Flip(s[j])
    ensures Val(now, i) + Val(s, i) == P(i) - 1
  {
    if i > 0 {
      FlipAll(now, s, i - 1);
      var x: nat, y: nat, p := s[i - 1], now[i - 1], P(i - 1);
      assert x * p + y * p == (BASE - 1) * p by {
        assert (x + y) * p == x * p + y * p;
      }
    }
  }

  // ---------------------------------------------------------------- multiplication

  /** Multiplying by a word, after the lowest `i` limbs. */
  ghost predicate Scaled(now: seq<Limb>, s: seq<Limb>, b32: nat, i: nat, carry: nat)
    requires |now| == |s| && i <= |now|
  {
    Val(now, |now|) + carry * P(i) == Val(s, |now|) + (b32 - 1) * Val(s, i)
  }

  lemma ScaleStep(now: seq<Limb>, s: seq<Limb>, b32: Limb, i: nat, carry: nat, n: nat)
    requires |now| == |s| && i < |now| && carry < BASE && now[i] == s[i] && n == carry + b32 * s[i]
    requires Scaled(now, s, b32, i, carry)
    ensures n < BASE * BASE && High(n) < BASE && Scaled(now[i := Low(n)], s, b32, i + 1, High(n))
  {
    ProductFits(b32, s[i], carry, 0);
    var x: nat := s[i];
    var add := b32 * x - x;
    CarryStep(now, i, n, carry, add);
    ScaleSum(b32, x, Val(s, i), P(i));
  }

  lemma ScaleSum(b: nat, x: nat, v: nat, p: nat)
    ensures (b - 1) * (v + x * p) == (b - 1) * v + (b * x - x) * p
  {
  }

  /** No intermediate result needs more than 64 bits. */
  lemma ProductFits(x: Limb, y: Limb, c: Limb, d: Limb)
    ensures x * y + c + d < BASE * BASE
  {
    var m: nat := BASE - 1;
    MulMonotone(x, m, y);
    MulMonotone(y, m, m);
  }

  /** Adding a multiple of `b`, after its lowest `i` limbs. */
  ghost predicate Partial(now: seq<Limb>, was: seq<Limb>, x: nat, b: seq<Limb>, i: nat, j: nat, carry: nat)
    requires |now| == |was| == |b| && i <= |now|
  {
    Val(now, |now|) + carry * P(i + j) == Val(was, |now|) + x * P(j) * Val(b, i)
  }

  lemma PartialStart(now: seq<Limb>, x: nat, b: seq<Limb>, j: nat)
    requires |now| == |b|
    ensures Partial(now, now, x, b, 0, j, 0)
  {
  }

  lemma PartialStep(now: seq<Limb>, was: seq<Limb>, x: Limb, b: seq<Limb>, i: nat, j: nat, carry: nat, n: nat)
    requires |now| == |was| == |b| && i + j < |now| && carry < BASE && n == carry + now[i + j] + x * b[i]
    requires Partial(now, was, x, b, i, j, carry)
    ensures n < BASE * BASE && High(n) < BASE && Partial(now[i + j := Low(n)], was, x, b, i + 1, j, High(n))
  {
    ProductFits(x, b[i], carry, now[i + j]);
    CarryStep(now, i + j, n, carry, x * b[i]);
    PAdd(j, i);
    PartialSum(x, b[i], Val(b, i), P(i), P(j));
  }

  lemma PartialSum(x: nat, y: nat, v: nat, p: nat, q: nat)
    ensures x * q * (v + y * p) == x * q * v + x * y * (q * p)
  {
  }

  /** The product so far: a multiple of 2^256 is lost. */
  ghost predicate Multiplied(now: seq<Limb>, a: seq<Limb>, b: seq<Limb>, j: nat, lost: nat)
    requires |now| == |a| == |b| && j <= |now|
  {
    Val(now, |now|) + lost * P(|now|) == Val(a, j) * Val(b, |now|)
  }

  lemma MultipliedStep(now: seq<Limb>, was: seq<Limb>, a: seq<Limb>, b: seq<Limb>, j: nat, carry: nat,
                       lost: nat) returns (more: nat)
    requires |now| == |was| == |a| == |b| && j < |now|
    requires Multiplied(was, a, b, j, lost) && Partial(now, was, a[j], b, |now| - j, j, carry)
    ensures Multiplied(now, a, b, j + 1, more)
  {
    hide Val, P;
    var q := ValHigh(b, |now| - j, |now|);
    PAdd(j, |now| - j);
    ValNext(a, j);
    more := lost + carry + a[j] * q;
    MultipliedSum(Val(now, |now|), Val(was, |now|), carry, lost, a[j], q, Val(a, j), Val(b, |now| - j), P(j),
                  P(|now| - j));
  }

  lemma MultipliedSum(now: nat, was: nat, carry: nat, lost: nat, x: nat, q: nat, va: nat, vb: nat, p: nat, r: nat)
    requires now + carry * (p * r) == was + x * p * vb
    requires was + lost * (p * r) == va * (vb + q * r)
    ensures now + (lost + carry + x * q) * (p * r) == (va + x * p) * (vb + q * r)
  {
  }

  lemma MultipliedEnd(now: seq<Limb>, a: seq<Limb>, b: seq<Limb>, lost: nat)
    requires |now| == |a| == |b| && Multiplied(now, a, b, |now|, lost)
    ensures Val(now, |now|) == Val(a, |now|) * Val(b, |now|) % P(|now|)
  {
    hide Val, P;
    ValBound(now, |now|);
    IsMod(Val(now, |now|), lost, P(|now|), Val(a, |now|) * Val(b, |now|));
  }

  // ---------------------------------------------------------------- shifts

  /** The bits of the limb before `i` that a left shift moves into limb `i`. */
  function Spill(a: seq<Limb>, i: nat, s: nat): Limb
    requires i <= |a| && s <= 32
  {
    if i == 0 then 0 else ShiftDown(a[i - 1], 32 - s)
  }

  /** A left shift by `32 * k + s` bits, after `i` limbs of the operand. */
  ghost predicate ShiftedUp(now: seq<Limb>, a: seq<Limb>, i: nat, k: nat, s: nat)
    requires |now| == |a| && i + k <= |now| && s <= 32
  {
    && Val(now, i + k) + Spill(a, i, s) * P(i + k) == Val(a, i) * (P(k) * Pow2(s))
    && (i + k < |now| ==> now[i + k] == Spill(a, i, s))
    && forall j :: i + k < j < |now| ==> now[j] == 0
  }

  lemma ShiftUpStart(now: seq<Limb>, a: seq<Limb>, k: nat, s: nat)
    requires |now| == |a| && k <= |now| && s <= 32
    requires forall j :: 0 <= j < |now| ==> now[j] == 0
    ensures ShiftedUp(now, a, 0, k, s)
  {
    ValZero(now, 0, k);
  }

  lemma ShiftUpStep(now: seq<Limb>, next: seq<Limb>, a: seq<Limb>, i: nat, k: nat, s: nat)
    requires |now| == |next| == |a| && i + k < |now| && s < 32 && ShiftedUp(now, a, i, k, s)
    requires forall j :: 0 <= j < |now| && j != i + k && j != i + k + 1 ==> next[j] == now[j]
    requires next[i + k] == OrLimb(now[i + k], ShiftUp(a[i], s))
    requires i + k + 1 < |now| ==>
              next[i + k + 1] == if s == 0 then now[i + k + 1] else OrLimb(now[i + k + 1], ShiftDown(a[i], 32 - s))
    ensures ShiftedUp(next, a, i + 1, k, s)
  {
    hide Pow2, OrLimb, ShiftUp, ShiftDown, Spill;
    var m, c: nat := i + k, Spill(a, i, s);
    MeetLimbs(a, i, s);
    ValSame(now, next, m);
    PAdd(k, i);
    ShiftUpSum(Val(now, m), c, ShiftUp(a[i], s), Spill(a, i + 1, s), P(m), Val(a, i), a[i], P(i), P(k), Pow2(s));
  }

  /** What goes into the two limbs that a left shift splits a limb over. */
  lemma MeetLimbs(a: seq<Limb>, i: nat, s: nat)
    requires i < |a| && s < 32
    ensures OrLimb(Spill(a, i, s), ShiftUp(a[i], s)) == ShiftUp(a[i], s) + Spill(a, i, s)
    ensures ShiftUp(a[i], s) + Spill(a, i + 1, s) * BASE == a[i] * Pow2(s)
    ensures Spill(a, i + 1, s) == if s == 0 then 0 else OrLimb(0, ShiftDown(a[i], 32 - s))
  {
    hide Pow2, ShiftUp, ShiftDown, Or;
    ShiftSplit(a[i], s);
    if i > 0 {
      ShiftSplit(a[i - 1], s);
    }
    OrDisjoint(ShiftUp(a[i], s), Spill(a, i, s), s);
    OrZero(ShiftDown(a[i], 32 - s));
    if s == 0 {
      NoSpill(a[i]);
    }
  }

  lemma NoSpill(x: Limb)
    ensures ShiftDown(x, 32) == 0
  {
    hide Pow2;
    Pow2Values();
    IsDiv(x, BASE, 0, x);
  }

  lemma ShiftUpSum(v: nat, c: nat, low: nat, d: nat, pm: nat, va: nat, x: nat, pi: nat, pk: nat, q: nat)
    requires v + c * pm == va * (pk * q) && low + d * BASE == x * q && pm == pk * pi
    ensures v + (low + c) * pm + d * (BASE * pm) == (va + x * pi) * (pk * q)
  {
  }

  lemma ShiftUpEnd(now: seq<Limb>, a: seq<Limb>, k: nat, s: nat)
    requires |now| == |a| && k <= |now| && s < 32 && ShiftedUp(now, a, |now| - k, k, s)
    ensures Val(now, |now|) == Val(a, |now|) * Pow2(32 * k + s) % P(|now|)
  {
    var q := ValHigh(a, |now| - k, |now|);
    PAdd(k, |now| - k);
    PIsPow2(k);
    Pow2Add(32 * k, s);
    ValBound(now, |now|);
    hide Val, P, Pow2;
    var c: nat := Spill(a, |now| - k, s);
    ShiftUpLoss(Val(now, |now|), c, Val(a, |now| - k), q, P(|now| - k), P(k), Pow2(s));
    IsMod(Val(now, |now|), c + q * Pow2(s), P(|now|), Val(a, |now|) * Pow2(32 * k + s));
  }

  lemma ShiftUpLoss(v: nat, c: nat, va: nat, q: nat, p: nat, r: nat, t: nat)
    requires v + c * (r * p) == va * (r * t)
    ensures v + (c + q * t) * (r * p) == (va + q * p) * (r * t)
  {
  }

  /** A right shift by `32 * k + s` bits, after `i` limbs of the operand: what is lost is below the lost bits. */
  ghost predicate ShiftedDown(now: seq<Limb>, a: seq<Limb>, i: nat, k: nat, s: nat)
    requires |now| == |a| && i <= |now| && s < 32
  {
    && (forall j :: 0 <= j < |now| && i <= j + k ==> now[j] == 0)
    && (i > k ==>
          && Val(a, i) == Val(now, i - k) * (P(k) * Pow2(s)) + Lost(a, k, s)
          && now[i - k - 1] == ShiftDown(a[i - 1], s))
  }

  ghost function Lost(a: seq<Limb>, k: nat, s: nat): nat
    requires k < |a|
  {
    Val(a, k) + a[k] % Pow2(s) * P(k)
  }

  lemma LostBound(a: seq<Limb>, k: nat, s: nat)
    requires k < |a|
    ensures Lost(a, k, s) < P(k) * Pow2(s)
  {
    ValBound(a, k);
    hide Val, P, Pow2;
    BelowProduct(Val(a, k), a[k] % Pow2(s), P(k), Pow2(s));
  }

  lemma BelowProduct(v: nat, x: nat, p: nat, q: nat)
    requires v < p && x < q
    ensures v + x * p < p * q
  {
    MulMonotone(x + 1, q, p);
    assert (x + 1) * p == x * p + p;
  }

  lemma ShiftDownFirst(now: seq<Limb>, next: seq<Limb>, a: seq<Limb>, k: nat, s: nat)
    requires |now| == |next| == |a| && k < |now| && s < 32 && ShiftedDown(now, a, k, k, s)
    requires next == now[0 := OrLimb(now[0], ShiftDown(a[k], s))]
    ensures ShiftedDown(next, a, k + 1, k, s)
  {
    hide Pow2;
    FirstLimb(next);
    var x: nat := a[k];
    SplitWeight(x, P(k), Pow2(s));
  }

  lemma FirstLimb(s: seq<Limb>)
    requires |s| > 0
    ensures Val(s, 1) == s[0]
  {
  }

  lemma SplitWeight(x: nat, p: nat, q: nat)
    requires q > 0
    ensures x * p == x / q * (p * q) + x % q * p
  {
  }

  lemma ShiftDownStep(now: seq<Limb>, next: seq<Limb>, a: seq<Limb>, i: nat, k: nat, s: nat)
    requires |now| == |next| == |a| && k < i < |now| && s < 32 && ShiftedDown(now, a, i, k, s)
    requires forall j :: 0 <= j < |now| && j != i - k && j != i - k - 1 ==> next[j] == now[j]
    requires next[i - k - 1] == if s == 0 then now[i - k - 1] else OrLimb(now[i - k - 1], ShiftUp(a[i], 32 - s))
    requires next[i - k] == OrLimb(now[i - k], ShiftDown(a[i], s))
    ensures ShiftedDown(next, a, i + 1, k, s)
  {
    var m, x, up: nat := i - k - 1, a[i], ShiftUp(a[i], 32 - s);
    JoinLimbs(now[m], a[i - 1], x, s);
    ValSame(now, next, m);
    PAdd(k, m + 1);
    assert k + (m + 1) == i;
    hide Pow2, ShiftUp, OrLimb;
    Unfold2(now, next, m);
    assert Val(a, i + 1) == Val(a, i) + x * P(i);
    ShiftDownSum(Val(now, m), now[m], up, ShiftDown(x, s), P(m), P(k), Pow2(s), Pow2(32 - s), x, Lost(a, k, s));
  }

  /** What goes into the two limbs that a right shift splits a limb over. */
  lemma JoinLimbs(y: Limb, prior: Limb, x: Limb, s: nat)
    requires s < 32 && y == ShiftDown(prior, s)
    ensures ShiftUp(x, 32 - s) + ShiftDown(x, s) * BASE == x * Pow2(32 - s)
    ensures (if s == 0 then y else OrLimb(y, ShiftUp(x, 32 - s))) == y + ShiftUp(x, 32 - s)
    ensures OrLimb(0, ShiftDown(x, s)) == ShiftDown(x, s)
    ensures Pow2(s) * Pow2(32 - s) == BASE
  {
    hide Pow2, ShiftUp, ShiftDown, Or;
    ShiftSplit(x, 32 - s);
    ShiftSplit(prior, 32 - s);
    OrDisjoint(ShiftUp(x, 32 - s), y, 32 - s);
    OrZero(ShiftDown(x, s));
    Pow2Values();
    Pow2Add(s, 32 - s);
    if s == 0 {
      NoShift(x);
    }
  }

  lemma OrZero(x: nat)
    ensures Or(0, x) == x
  {
  }

  lemma NoShift(x: Limb)
    ensures ShiftUp(x, 32) == 0
  {
    hide Pow2;
    Pow2Values();
    IsMod(0, x, BASE, x * BASE);
  }

  lemma Unfold2(now: seq<Limb>, next: seq<Limb>, m: nat)
    requires m + 2 <= |now| == |next|
    ensures Val(now, m + 1) == Val(now, m) + now[m] * P(m)
    ensures Val(next, m + 2) == Val(next, m) + next[m] * P(m) + next[m + 1] * (BASE * P(m))
  {
  }

  lemma ShiftDownSum(v: nat, y: nat, up: nat, down: nat, pm: nat, pk: nat, q: nat, r: nat, x: nat, lost: nat)
    requires up + down * BASE == x * r && q * r == BASE
    ensures (v + (y + up) * pm + down * (BASE * pm)) * (pk * q) + lost == (v + y * pm) * (pk * q) + lost + x * (pk * (BASE * pm))
  {
  }

  lemma ShiftDownEnd(now: seq<Limb>, a: seq<Limb>, k: nat, s: nat)
    requires |now| == |a| && s < 32 && ShiftedDown(now, a, |now|, k, s)
    ensures Val(now, |now|) == Quotient(Val(a, |now|), Pow2(32 * k + s))
  {
    PIsPow2(k);
    Pow2Add(32 * k, s);
    if k < |now| {
      ValZero(now, |now| - k, |now|);
      LostBound(a, k, s);
      hide Val, P, Pow2;
      IsDiv(Val(a, |now|), P(k) * Pow2(s), Val(now, |now|), Lost(a, k, s));
    } else {
      ValZero(now, 0, |now|);
      ValBound(a, |now|);
      PIsPow2(|now|);
      Pow2Monotone(32 * |now|, 32 * k + s);
      hide Val, P, Pow2;
      IsDiv(Val(a, |now|), Pow2(32 * k + s), 0, Val(a, |now|));
    }
  }

  lemma IsDiv(x: nat, p: nat, q: nat, r: nat)
    requires p > 0 && x == q * p + r && r < p
    ensures x / p == q && x % p == r
  {
    IsMod(r, q, p, x);
    assert x == x / p * p + x % p;
    var d := x / p - q;
    assert d * p == 0;
  }
}
