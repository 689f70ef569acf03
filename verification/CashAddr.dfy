/** The CashAddr checksum (src/cashaddr.cpp): values are polynomials over GF(32), packed into 40 bits. */
module CashAddr {

  type Value = bv5

  // ---------------------------------------------------------------- exclusive or

  function Xor(a: bv40, b: bv40): bv40 {
    a ^ b
  }

  lemma XorSwap(a: bv40, b: bv40, c: bv40, d: bv40)
    ensures Xor(Xor(a, b), Xor(c, d)) == Xor(Xor(a, c), Xor(b, d))
  {
    hide Xor;
    XorAssoc(a, b, Xor(c, d));
    XorAssoc(b, c, d);
    XorComm(b, c);
    XorAssoc(c, b, d);
    XorAssoc(a, c, Xor(b, d));
  }

  lemma XorAssoc(a: bv40, b: bv40, c: bv40)
    ensures Xor(Xor(a, b), c) == Xor(a, Xor(b, c))
  {
  }

  lemma XorComm(a: bv40, b: bv40)
    ensures Xor(a, b) == Xor(b, a)
  {
  }

  lemma XorZero(a: bv40)
    ensures Xor(a, 0) == a && Xor(0, a) == a && Xor(a, a) == 0
  {
  }

  lemma XorCancel(a: bv40, b: bv40)
    ensures Xor(a, Xor(a, b)) == b
    ensures Xor(a, b) == 0 ==> a == b
  {
  }

  // ---------------------------------------------------------------- one step

  /** The constant, if the masked bit is set. */
  function Part(c0: bv40, mask: bv40, k: bv40): bv40 {
    if c0 & mask != 0 then k else 0
  }

  /** What a step adds for the symbol that is shifted out: {c0} times the generator's low part. */
  function Feedback(c0: bv40): bv40 {
    Xor(Xor(Xor(Xor(Part(c0, 1, 0x98f2bc8e61), Part(c0, 2, 0x79b76d99e2)), Part(c0, 4, 0xf33e5fb3c4)),
            Part(c0, 8, 0xae2eabe2a8)),
        Part(c0, 16, 0x1e4f43e470))
  }

  function ShiftIn(c: bv40): bv40 {
    (c & 0x07_ffff_ffff) << 5
  }

  function ShiftOut(c: bv40): bv40 {
    c >> 35
  }

  /** Multiplying the polynomial `c` by x, modulo the generator. */
  function Times(c: bv40): bv40 {
    Xor(ShiftIn(c), Feedback(ShiftOut(c)))
  }

  function Wide(d: Value): bv40 {
    d as bv40
  }

  function Step(c: bv40, d: Value): bv40 {
    Xor(Times(c), Wide(d))
  }

  lemma PartLinear(a: bv40, b: bv40, mask: bv40, k: bv40)
    requires mask == 1 || mask == 2 || mask == 4 || mask == 8 || mask == 16
    ensures Part(Xor(a, b), mask, k) == Xor(Part(a, mask, k), Part(b, mask, k))
  {
    hide Xor;
    MaskLinear(a, b, mask);
    XorZero(k);
    XorZero(0);
  }

  lemma MaskLinear(a: bv40, b: bv40, mask: bv40)
    requires mask == 1 || mask == 2 || mask == 4 || mask == 8 || mask == 16
    ensures Xor(a, b) & mask != 0 <==> (a & mask != 0) != (b & mask != 0)
  {
  }

  lemma FeedbackLinear(a: bv40, b: bv40)
    ensures Feedback(Xor(a, b)) == Xor(Feedback(a), Feedback(b))
  {
    hide Xor, Part;
    var k1: bv40, k2: bv40, k3: bv40 := 0x98f2bc8e61, 0x79b76d99e2, 0xf33e5fb3c4;
    var k4: bv40, k5: bv40 := 0xae2eabe2a8, 0x1e4f43e470;
    PartLinear(a, b, 1, k1);
    PartLinear(a, b, 2, k2);
    PartLinear(a, b, 4, k3);
    PartLinear(a, b, 8, k4);
    PartLinear(a, b, 16, k5);
    var a2, b2 := Xor(Part(a, 1, k1), Part(a, 2, k2)), Xor(Part(b, 1, k1), Part(b, 2, k2));
    XorSwap(Part(a, 1, k1), Part(b, 1, k1), Part(a, 2, k2), Part(b, 2, k2));
    XorSwap(a2, b2, Part(a, 4, k3), Part(b, 4, k3));
    var a3, b3 := Xor(a2, Part(a, 4, k3)), Xor(b2, Part(b, 4, k3));
    XorSwap(a3, b3, Part(a, 8, k4), Part(b, 8, k4));
    XorSwap(Xor(a3, Part(a, 8, k4)), Xor(b3, Part(b, 8, k4)), Part(a, 16, k5), Part(b, 16, k5));
  }

  lemma ShiftLinear(a: bv40, b: bv40)
    ensures ShiftOut(Xor(a, b)) == Xor(ShiftOut(a), ShiftOut(b))
    ensures ShiftIn(Xor(a, b)) == Xor(ShiftIn(a), ShiftIn(b))
  {
  }

  lemma TimesLinear(a: bv40, b: bv40)
    ensures Times(Xor(a, b)) == Xor(Times(a), Times(b))
  {
    hide Xor, Feedback, ShiftIn, ShiftOut;
    ShiftLinear(a, b);
    FeedbackLinear(ShiftOut(a), ShiftOut(b));
    XorSwap(ShiftIn(a), ShiftIn(b), Feedback(ShiftOut(a)), Feedback(ShiftOut(b)));
  }

  /** Nothing but zero becomes zero, since the generator has a nonzero constant term. */
  lemma TimesInjective(c: bv40)
    requires Times(c) == 0
    ensures c == 0
  {
  }

  lemma StepLinear(a: bv40, b: bv40, d: Value, e: Value)
    ensures Xor(Step(a, d), Step(b, e)) == Step(Xor(a, b), d ^ e)
  {
    hide Xor, Times, Wide;
    TimesLinear(a, b);
    XorSwap(Times(a), Wide(d), Times(b), Wide(e));
    WideLinear(d, e);
  }

  lemma WideLinear(d: Value, e: Value)
    ensures Xor(Wide(d), Wide(e)) == Wide(d ^ e)
  {
  }

  // ---------------------------------------------------------------- lists

  /** The remainder after the values of a list. */
  function Run(c: bv40, v: seq<Value>): bv40 {
    if v == [] then c else Step(Run(c, v[..|v| - 1]), v[|v| - 1])
  }

  lemma {:induction false} RunAppend(c: bv40, v: seq<Value>, w: seq<Value>)
    ensures Run(c, v + w) == Run(Run(c, v), w)
    decreases |w|
  {
    if w == [] {
      assert v + w == v;
    } else {
      assert (v + w)[..|v + w| - 1] == v + w[..|w| - 1];
      RunAppend(c, v, w[..|w| - 1]);
    }
  }

  /** The remainders after each value, up to the last. */
  lemma {:induction false} RunTrace(v: seq<Value>, w: seq<bv40>)
    requires |w| == |v| + 1 && forall i :: 0 <= i < |v| ==> w[i + 1] == Step(w[i], v[i])
    ensures Run(w[0], v) == w[|v|]
    decreases |v|
  {
    hide Step;
    if v != [] {
      RunTrace(v[..|v| - 1], w[..|v|]);
    }
  }

  /** The difference of two lists. */
  function Diff(v: seq<Value>, w: seq<Value>): (r: seq<Value>)
    requires |v| == |w|
    ensures |r| == |v| && forall i :: 0 <= i < |v| ==> r[i] == v[i] ^ w[i]
  {
    seq(|v|, i requires 0 <= i < |v| => v[i] ^ w[i])
  }

  /** The remainder of a difference is the difference of the remainders. */
  lemma {:induction false} RunLinear(a: bv40, b: bv40, v: seq<Value>, w: seq<Value>)
    requires |v| == |w|
    ensures Xor(Run(a, v), Run(b, w)) == Run(Xor(a, b), Diff(v, w))
    decreases |v|
  {
    hide Xor, Step;
    if v != [] {
      var n := |v| - 1;
      RunLinear(a, b, v[..n], w[..n]);
      assert Diff(v, w)[..n] == Diff(v[..n], w[..n]);
      StepLinear(Run(a, v[..n]), Run(b, w[..n]), v[n], w[n]);
    }
  }

  function Zeros(n: nat): (r: seq<Value>)
    ensures |r| == n && forall i :: 0 <= i < n ==> r[i] == 0
  {
    seq(n, _ => 0)
  }

  /** A nonzero remainder stays nonzero. */
  lemma {:induction false} RunZeros(c: bv40, v: seq<Value>)
    requires c != 0 && forall i :: 0 <= i < |v| ==> v[i] == 0
    ensures Run(c, v) != 0
    decreases |v|
  {
    hide Xor, Times, Wide;
    if v != [] {
      var n := |v| - 1;
      RunZeros(c, v[..n]);
      WideZero();
      XorZero(Times(Run(c, v[..n])));
      if Times(Run(c, v[..n])) == 0 {
        TimesInjective(Run(c, v[..n]));
      }
    }
  }

  lemma WideZero()
    ensures Wide(0) == 0
  {
  }

  // ---------------------------------------------------------------- at most eight values

  /** 32 to the `n`. */
  function Limit(n: nat): bv40
    requires n <= 7
  {
    if n == 0 then 1 else if n == 1 then 0x20 else if n == 2 then 0x400 else if n == 3 then 0x8000
    else if n == 4 then 0x10_0000 else if n == 5 then 0x200_0000 else if n == 6 then 0x4000_0000 else 0x8_0000_0000
  }

  /** Nothing is shifted out in the next step. */
  predicate Short(c: bv40) {
    c < 0x8_0000_0000
  }

  predicate Below(c: bv40, n: nat)
    requires n <= 7
  {
    c < Limit(n)
  }

  function Append(c: bv40, d: Value): bv40 {
    (c << 5) | Wide(d)
  }

  /** While nothing is shifted out, values are just appended. */
  lemma ShortStep(c: bv40, d: Value)
    requires Short(c)
    ensures Step(c, d) == Append(c, d)
  {
    assert ShiftOut(c) == 0;
    assert Feedback(0) == 0;
    assert ShiftIn(c) == c << 5;
    hide Feedback, ShiftOut;
    XorZero(ShiftIn(c));
    assert Xor(c << 5, Wide(d)) == (c << 5) | Wide(d);
  }

  lemma AppendNonzero(c: bv40, d: Value)
    requires Short(c) && Append(c, d) == 0
    ensures c == 0 && d == 0
  {
  }

  lemma AppendBelow(c: bv40, d: Value, n: nat)
    requires n <= 7 && Below(c, n)
    ensures Short(c) && (n < 7 ==> Below(Append(c, d), n + 1))
  {
  }

  /** From zero, up to eight values give zero only if they are all zero. */
  lemma {:induction false} ShortRun(v: seq<Value>)
    requires |v| <= 8
    ensures |v| <= 7 ==> Below(Run(0, v), |v|)
    ensures Run(0, v) == 0 ==> forall i :: 0 <= i < |v| ==> v[i] == 0
    decreases |v|
  {
    hide Step, Append, Below, Short;
    if v == [] {
      ZeroBelow();
    } else {
      var n := |v| - 1;
      ShortRun(v[..n]);
      AppendBelow(Run(0, v[..n]), v[n], n);
      ShortStep(Run(0, v[..n]), v[n]);
      if Run(0, v) == 0 {
        AppendNonzero(Run(0, v[..n]), v[n]);
        assert forall i :: 0 <= i < n ==> v[i] == v[..n][i];
      }
    }
  }

  lemma ZeroBelow()
    ensures Below(0, 0)
  {
  }

  /** Without its last 5-bit group. */
  function DropLast(x: bv40): bv40 {
    x >> 5
  }

  /** The highest `i` of the eight 5-bit groups. */
  function Top(mod: bv40, i: nat): bv40
    requires i <= 8
    decreases 8 - i
  {
    if i == 8 then mod else DropLast(Top(mod, i + 1))
  }

  function Digit(mod: bv40, i: nat): Value
    requires i < 8
  {
    (Top(mod, i + 1) & 0x1f) as bv5
  }

  lemma Rejoin(x: bv40)
    ensures Short(DropLast(x)) && Append(DropLast(x), (x & 0x1f) as bv5) == x
  {
  }

  /** Feeding the eight groups of a number gives the number. */
  lemma {:induction false} DigitsRun(mod: bv40, q: seq<Value>, n: nat)
    requires n <= |q| == 8 && forall i :: 0 <= i < 8 ==> q[i] == Digit(mod, i)
    ensures Run(0, q[..n]) == Top(mod, n)
  {
    hide Step, Top, Append, Short, DropLast;
    if n == 0 {
      TopZero(mod);
    } else {
      DigitsRun(mod, q, n - 1);
      assert q[..n][..n - 1] == q[..n - 1];
      TopPrior(mod, n - 1);
      Rejoin(Top(mod, n));
      ShortStep(Top(mod, n - 1), q[n - 1]);
    }
  }

  lemma TopPrior(mod: bv40, i: nat)
    requires i < 8
    ensures Top(mod, i) == DropLast(Top(mod, i + 1))
  {
  }

  lemma TopZero(mod: bv40)
    ensures Top(mod, 0) == 0 && Top(mod, 8) == mod
  {
  }

  // ---------------------------------------------------------------- the operations

  /** The values of a prefix, followed by the separator's zero. */
  function ExpandPrefix(prefix: string): (r: seq<Value>)
    ensures |r| == |prefix| + 1 && r[|prefix|] == 0
  {
    seq(|prefix|, i requires 0 <= i < |prefix| => (prefix[i] as int % 32) as bv5) + [0]
  }

  /** A list of values with a valid checksum. */
  ghost predicate Checks(prefix: string, payload: seq<Value>) {
    Run(1, ExpandPrefix(prefix) + payload) == 1
  }

  /** One symbol, with the feedback added bit by bit. */
  method PolyStep(c: bv40, d: Value) returns (r: bv40)
    ensures r == Step(c, d)
  {
    hide Xor, ShiftIn, ShiftOut, Wide;
    var c0 := ShiftOut(c);
    var p1, p2, p3 := Part(c0, 1, 0x98f2bc8e61), Part(c0, 2, 0x79b76d99e2), Part(c0, 4, 0xf33e5fb3c4);
    var p4, p5 := Part(c0, 8, 0xae2eabe2a8), Part(c0, 16, 0x1e4f43e470);
    r := Xor(ShiftIn(c), Wide(d));
    hide Part;
    FoldIn(ShiftIn(c), Wide(d), p1, p2, p3, p4, p5);
    r := Xor(r, p1);
    r := Xor(r, p2);
    r := Xor(r, p3);
    r := Xor(r, p4);
    r := Xor(r, p5);
  }

  lemma FoldIn(s: bv40, d: bv40, p1: bv40, p2: bv40, p3: bv40, p4: bv40, p5: bv40)
    ensures Xor(Xor(Xor(Xor(Xor(Xor(s, d), p1), p2), p3), p4), p5) ==
            Xor(Xor(s, Xor(Xor(Xor(Xor(p1, p2), p3), p4), p5)), d)
  {
    hide Xor;
    MoveLast(s, d, p1);
    var s1 := Xor(s, p1);
    MoveLast(s1, d, p2);
    XorAssoc(s, p1, p2);
    var s2 := Xor(s1, p2);
    MoveLast(s2, d, p3);
    XorAssoc(s, Xor(p1, p2), p3);
    var s3 := Xor(s2, p3);
    MoveLast(s3, d, p4);
    XorAssoc(s, Xor(Xor(p1, p2), p3), p4);
    MoveLast(Xor(s3, p4), d, p5);
    XorAssoc(s, Xor(Xor(Xor(p1, p2), p3), p4), p5);
  }

  lemma MoveLast(s: bv40, d: bv40, p: bv40)
    ensures Xor(Xor(s, d), p) == Xor(Xor(s, p), d)
  {
    hide Xor;
    XorAssoc(s, d, p);
    XorComm(d, p);
    XorAssoc(s, p, d);
  }

  method PolyMod(v: seq<Value>) returns (r: bv40)
    ensures r == Xor(Run(1, v), 1)
  {
    hide Xor, Step;
    var c: bv40 := 1;
    for i := 0 to |v|
      invariant c == Run(1, v[..i])
    {
      assert v[..i + 1][..i] == v[..i];
      c := PolyStep(c, v[i]);
    }
    assert v[..|v|] == v;
    return Xor(c, 1);
  }

  method VerifyChecksum(prefix: string, payload: seq<Value>) returns (r: bool)
    ensures r <==> Checks(prefix, payload)
  {
    hide Run;
    var mod := PolyMod(ExpandPrefix(prefix) + payload);
    XorCancel(Run(1, ExpandPrefix(prefix) + payload), 1);
    XorZero(1);
    return mod == 0;
  }

  /** The eight values that complete a payload. */
  method CreateChecksum(prefix: string, payload: seq<Value>) returns (ret: seq<Value>)
    ensures |ret| == 8 && Checks(prefix, payload + ret)
  {
    hide Run, Xor, Digit;
    var enc := ExpandPrefix(prefix) + payload;
    var mod := PolyMod(enc + Zeros(8));
    ret := [];
    for i := 0 to 8
      invariant |ret| == i && forall j :: 0 <= j < i ==> ret[j] == Digit(mod, j)
    {
      ret := ret + [Digit(mod, i)];
    }
    assert ExpandPrefix(prefix) + (payload + ret) == enc + ret;
    Completes(enc, mod, ret);
  }

  lemma Completes(enc: seq<Value>, mod: bv40, q: seq<Value>)
    requires mod == Xor(Run(1, enc + Zeros(8)), 1) && |q| == 8 && forall i :: 0 <= i < 8 ==> q[i] == Digit(mod, i)
    ensures Run(1, enc + q) == 1
  {
    hide Run, Xor, Digit, Top;
    var c := Run(1, enc);
    RunAppend(1, enc, Zeros(8));
    RunAppend(1, enc, q);
    DigitsRun(mod, q, 8);
    assert q[..8] == q;
    TopZero(mod);
    RunLinear(c, 0, Zeros(8), q);
    XorZero(c);
    DiffZeros(q);
    XorCancel(Run(c, Zeros(8)), 1);
  }

  lemma DiffZeros(q: seq<Value>)
    ensures Diff(Zeros(|q|), q) == q
  {
  }

  lemma SameXor(d: Value, e: Value)
    ensures d ^ e == 0 <==> d == e
  {
  }

  // ---------------------------------------------------------------- error detection

  lemma {:induction false} RunNothing(v: seq<Value>)
    requires forall i :: 0 <= i < |v| ==> v[i] == 0
    ensures Run(0, v) == 0
    decreases |v|
  {
    if v != [] {
      RunNothing(v[..|v| - 1]);
      assert Step(0, 0) == 0;
    }
  }

  /** Two lists of the same length that differ, and only within eight consecutive values, are not both valid. */
  lemma BurstDetected(prefix: string, v: seq<Value>, w: seq<Value>, at: nat)
    requires |v| == |w| && v != w && forall i :: 0 <= i < |v| && !(at <= i < at + 8) ==> v[i] == w[i]
    ensures !(Checks(prefix, v) && Checks(prefix, w))
  {
    hide Run, Xor;
    var e, d := ExpandPrefix(prefix), Diff(v, w);
    var c := Run(1, e);
    RunAppend(1, e, v);
    RunAppend(1, e, w);
    RunLinear(c, c, v, w);
    XorZero(c);
    XorZero(1);
    WindowNonzero(v, w, d, at);
  }

  lemma WindowNonzero(v: seq<Value>, w: seq<Value>, d: seq<Value>, at: nat)
    requires |v| == |w| && v != w && d == Diff(v, w) && forall i :: 0 <= i < |v| && !(at <= i < at + 8) ==> v[i] == w[i]
    ensures Run(0, d) != 0
  {
    hide Run;
    var k := DifferAt(v, w);
    SameXor(v[k], w[k]);
    forall i | 0 <= i < |v| && v[i] == w[i]
      ensures d[i] == 0
    {
      SameXor(v[i], w[i]);
    }
    var hi := if at + 8 <= |d| then at + 8 else |d|;
    var mid := d[at..hi];
    assert d == d[..at] + mid + d[hi..];
    RunAppend(0, d[..at] + mid, d[hi..]);
    RunAppend(0, d[..at], mid);
    RunNothing(d[..at]);
    ShortRun(mid);
    assert mid[k - at] == d[k] != 0;
    RunZeros(Run(0, mid), d[hi..]);
  }

  lemma DifferAt(v: seq<Value>, w: seq<Value>) returns (k: nat)
    requires |v| == |w| && v != w
    ensures k < |v| && v[k] != w[k]
  {
    k :| k < |v| && v[k] != w[k];
  }
}
