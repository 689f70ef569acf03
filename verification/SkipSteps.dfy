/** How many steps it takes to go back along the skip pointers (src/chain.cpp): at most a square of the number of
    binary digits of the height. */
module SkipSteps {
  import opened Common

  // ---------------------------------------------------------------- binary digits

  /** Clears the lowest set bit. */
  function InvertLowestOne(n: nat): (r: nat)
    ensures n > 0 ==> r < n
  {
    if n == 0 then 0 else if n % 2 == 1 then n - 1 else 2 * InvertLowestOne(n / 2)
  }

  /** The number of set bits. */
  function Ones(n: nat): nat {
    if n == 0 then 0 else n % 2 + Ones(n / 2)
  }

  lemma {:induction false} InvertOdd(n: nat, m: nat)
    requires n == 2 * m + 1
    ensures InvertLowestOne(n) == 2 * m && Ones(n) == Ones(2 * m) + 1 && Ones(2 * m) == Ones(m)
  {
  }

  lemma {:induction false} InvertEven(n: nat, m: nat)
    requires n == 2 * m
    ensures InvertLowestOne(n) == 2 * InvertLowestOne(m) && Ones(n) == Ones(m)
  {
  }

  lemma {:induction false} InvertOnes(n: nat)
    requires n > 0
    ensures Ones(InvertLowestOne(n)) == Ones(n) - 1
  {
    if n % 2 == 1 {
      InvertOdd(n, n / 2);
    } else {
      InvertEven(n, n / 2);
      InvertOnes(n / 2);
      InvertEven(2 * InvertLowestOne(n / 2), InvertLowestOne(n / 2));
    }
  }

  /** A number without its lowest `d` binary digits. */
  function Above(n: nat, d: nat): nat
    decreases d
  {
    if d == 0 then n else Above(n / 2, d - 1)
  }

  lemma {:induction false} AboveOrder(a: nat, b: nat, d: nat)
    requires a <= b
    ensures Above(a, d) <= Above(b, d)
    decreases d
  {
    if d > 0 {
      AboveOrder(a / 2, b / 2, d - 1);
    }
  }

  lemma {:induction false} OnesAbove(n: nat, d: nat)
    ensures Ones(Above(n, d)) <= Ones(n) <= Ones(Above(n, d)) + d
    decreases d
  {
    if d > 0 {
      OnesAbove(n / 2, d - 1);
    }
  }

  lemma {:induction false} NoneAbove(n: nat, d: nat)
    requires n < Pow2(d)
    ensures Above(n, d) == 0
    decreases d
  {
    if d > 0 {
      NoneAbove(n / 2, d - 1);
    }
  }

  // ---------------------------------------------------------------- skip heights

  function GetSkipHeight(height: nat): (r: nat)
    ensures height > 0 ==> r < height
  {
    if height < 2 then 0
    else if height % 2 == 1 then InvertLowestOne(InvertLowestOne(height - 1)) + 1
    else InvertLowestOne(height)
  }

  lemma SkipOdd(n: nat, m: nat)
    requires n == 2 * m + 1 && m > 0
    ensures GetSkipHeight(n) == InvertLowestOne(InvertLowestOne(2 * m)) + 1
  {
  }

  lemma SkipEven(n: nat, m: nat)
    requires n == 2 * m && m > 0
    ensures GetSkipHeight(n) == InvertLowestOne(n)
  {
  }

  /** Whether the skip pointer is followed: not past the target, and not if the one of the entry before leads
      further. */
  predicate FollowsSkip(w: nat, target: int)
    requires w > 0
  {
    var heightSkip, heightSkipPrev := GetSkipHeight(w), GetSkipHeight(w - 1);
    heightSkip == target
    || (heightSkip > target && !(heightSkipPrev < heightSkip - 2 && heightSkipPrev >= target))
  }

  /** The pointer of the entry before is better if it leads at least two below the entry before the skip, and not past
      the target. */
  lemma SkipChoice(w: nat, target: nat)
    requires w > 0
    ensures GetSkipHeight(w) < target ==> !FollowsSkip(w, target)
    ensures GetSkipHeight(w) == target ==> FollowsSkip(w, target)
    ensures GetSkipHeight(w) > target ==>
              (FollowsSkip(w, target) <==> GetSkipHeight(w - 1) < target || GetSkipHeight(w - 1) + 2 >= GetSkipHeight(w))
  {
  }

  function NextHeight(w: nat, target: nat): (r: nat)
    requires w > target
    ensures target <= r < w
  {
    if FollowsSkip(w, target) then GetSkipHeight(w) else w - 1
  }

  /** The steps from a height down to another. */
  ghost function Steps(w: nat, target: nat): nat {
    if w <= target then 0 else 1 + Steps(NextHeight(w, target), target)
  }

  /** From an odd height the skip pointer is followed whenever it does not lead too far. */
  lemma OddFollows(w: nat, target: nat)
    requires w % 2 == 1 && w > target && GetSkipHeight(w) >= target
    ensures FollowsSkip(w, target)
  {
  }

  /** A skip from an odd height clears at least one set bit. */
  lemma OddSkip(w: nat)
    requires w % 2 == 1
    ensures Ones(GetSkipHeight(w)) < Ones(w)
  {
    if w > 1 {
      var a := InvertLowestOne(w - 1);
      InvertOdd(w, w / 2);
      InvertOnes(w - 1);
      var m := EvenInvert(a);
      InvertOdd(GetSkipHeight(w), m);
      if a > 0 {
        InvertOnes(a);
      }
    }
  }

  lemma EvenInvert(a: nat) returns (m: nat)
    ensures a % 2 == 0 ==> InvertLowestOne(a) == 2 * m
    ensures InvertLowestOne(a) % 2 == 0 && InvertLowestOne(a) == 2 * m
  {
    m := if a % 2 == 1 then a / 2 else InvertLowestOne(a / 2);
  }

  /** Where the entry before has the better skip pointer, two steps clear at least one set bit. */
  lemma PrevSkip(w: nat)
    requires w > 0 && w % 2 == 0 && GetSkipHeight(w - 1) < GetSkipHeight(w) - 2
    ensures Ones(GetSkipHeight(w - 1)) < Ones(w)
  {
    hide GetSkipHeight, Ones;
    var m, z := EvenEnds(w);
    if w == 8 * m {
      PrevNoFurther(m);
    } else if w == 8 * m + 4 {
      PrevAfterFour(m);
    } else {
      PrevAfterTwo(z);
    }
  }

  lemma EvenEnds(w: nat) returns (m: nat, z: nat)
    requires w % 2 == 0
    ensures w == 8 * m || w == 8 * m + 4 || w == 4 * z + 2
  {
    var h := w / 2;
    z := h / 2;
    m := z / 2;
    assert w == 2 * h && (h == 2 * z || h == 2 * z + 1) && (z == 2 * m || z == 2 * m + 1);
  }

  /** Before a multiple of eight the skip pointer does not lead further. */
  lemma PrevNoFurther(m: nat)
    requires m > 0
    ensures GetSkipHeight(8 * m - 1) >= GetSkipHeight(8 * m)
  {
    hide InvertLowestOne, Ones, GetSkipHeight;
    SkipOdd(8 * m - 1, 4 * m - 1);
    SkipEven(8 * m, 4 * m);
    InvertEven(8 * m, 4 * m);
    InvertEven(4 * m, 2 * m);
    InvertEven(2 * m, m);
    InvertEven(8 * m - 2, 4 * m - 1);
    InvertOdd(4 * m - 1, 2 * m - 1);
    assert InvertLowestOne(8 * m - 2) == 8 * m - 4;
    InvertEven(8 * m - 4, 4 * m - 2);
    InvertEven(4 * m - 2, 2 * m - 1);
    InvertOdd(2 * m - 1, m - 1);
    assert InvertLowestOne(8 * m - 4) == 8 * m - 8;
    LessOne(m);
  }

  lemma LessOne(m: nat)
    requires m > 0
    ensures InvertLowestOne(m) <= m - 1
  {
  }

  lemma PrevAfterFour(m: nat)
    requires GetSkipHeight(8 * m + 3) < GetSkipHeight(8 * m + 4) - 2
    ensures Ones(GetSkipHeight(8 * m + 3)) < Ones(8 * m + 4)
  {
    hide InvertLowestOne, Ones, GetSkipHeight;
    SkipOdd(8 * m + 3, 4 * m + 1);
    SkipEven(8 * m + 4, 4 * m + 2);
    InvertEven(8 * m + 4, 4 * m + 2);
    InvertEven(4 * m + 2, 2 * m + 1);
    InvertOdd(2 * m + 1, m);
    InvertEven(8 * m + 2, 4 * m + 1);
    InvertOdd(4 * m + 1, 2 * m);
    assert InvertLowestOne(8 * m + 2) == 8 * m && Ones(8 * m + 4) == Ones(m) + 1;
    InvertEven(8 * m, 4 * m);
    InvertEven(4 * m, 2 * m);
    InvertEven(2 * m, m);
    var f := InvertLowestOne(m);
    InvertOdd(8 * f + 1, 4 * f);
    InvertEven(4 * f, 2 * f);
    InvertEven(2 * f, f);
    assert Ones(8 * f + 1) == Ones(f) + 1;
    InvertOnes(m);
  }

  lemma PrevAfterTwo(z: nat)
    requires GetSkipHeight(4 * z + 1) < GetSkipHeight(4 * z + 2) - 2
    ensures Ones(GetSkipHeight(4 * z + 1)) < Ones(4 * z + 2)
  {
    hide InvertLowestOne, Ones;
    if z > 0 {
      SkipOdd(4 * z + 1, 2 * z);
    }
    SkipEven(4 * z + 2, 2 * z + 1);
    hide GetSkipHeight;
    InvertEven(4 * z + 2, 2 * z + 1);
    InvertOdd(2 * z + 1, z);
    InvertEven(4 * z, 2 * z);
    InvertEven(2 * z, z);
    var a := InvertLowestOne(z);
    InvertEven(4 * a, 2 * a);
    InvertEven(2 * a, a);
    var f := InvertLowestOne(a);
    InvertOdd(4 * f + 1, 2 * f);
    InvertEven(2 * f, f);
    InvertOnes(z);
    if a > 0 {
      InvertOnes(a);
    } else {
      InvertZero();
    }
  }

  lemma InvertZero()
    ensures InvertLowestOne(0) == 0 && Ones(0) == 0
  {
  }

  // ---------------------------------------------------------------- the bound

  /** Heights between two that agree above their lowest `d` digits agree with them there. */
  lemma Between(target: nat, w': nat, w: nat, d: nat)
    requires target <= w' <= w && Above(w, d) == Above(target, d)
    ensures Above(w', d) == Above(w, d)
  {
    AboveOrder(target, w', d);
    AboveOrder(w', w, d);
  }

  /** Where the lowest set bit cannot be cleared without going past the target, it is the highest one that differs. */
  lemma {:induction false} Borrow(w: nat, target: nat, d: nat) returns (k: nat)
    requires InvertLowestOne(w) <= target < w && Above(w, d) == Above(target, d)
    ensures k < d && Above(w - 1, k) == Above(target, k)
  {
    if w % 2 == 1 {
      k := 0;
    } else {
      var m := w / 2;
      assert w == 2 * m && (w - 1) / 2 == m - 1;
      InvertEven(w, m);
      hide InvertLowestOne, Ones;
      k := Borrow(m, target / 2, d - 1);
      k := k + 1;
    }
  }

  /** Two steps for each set bit among the lowest `d` digits, and a square for what follows. */
  lemma {:induction false} StepsBound(w: nat, target: nat, d: nat)
    requires target <= w && Above(w, d) == Above(target, d)
    ensures Steps(w, target) <= 2 * (Ones(w) - Ones(Above(w, d))) + d * d
    decreases w
  {
    hide Ones, Above, InvertLowestOne;
    OnesAbove(w, d);
    if w > target {
      var next := NextHeight(w, target);
      Between(target, next, w, d);
      if FollowsSkip(w, target) {
        SkipClears(w);
        StepsBound(next, target, d);
      } else if w % 2 == 1 {
        InvertOdd(w, w / 2);
        StepsBound(next, target, d);
      } else if InvertLowestOne(w) < target {
        var k := Borrow(w, target, d);
        StepsBound(w - 1, target, k);
        OnesAbove(w - 1, k);
        Squares(k, d);
      } else {
        var after := GetSkipHeight(w - 1);
        PrevSkip(w);
        OddFollows(w - 1, target);
        Between(target, after, w, d);
        StepsBound(after, target, d);
        assert Steps(w, target) == 1 + Steps(w - 1, target) && Steps(w - 1, target) == 1 + Steps(after, target);
      }
    }
  }

  lemma SkipClears(w: nat)
    requires w > 0
    ensures Ones(GetSkipHeight(w)) < Ones(w)
  {
    if w % 2 == 1 {
      OddSkip(w);
    } else {
      InvertOnes(w);
    }
  }

  lemma Squares(k: nat, d: nat)
    requires k < d
    ensures 1 + 2 * k + k * k <= d * d
  {
    MulMonotone(k + 1, d, k + 1);
    MulMonotone(k + 1, d, d);
  }

  /** Going back from a height below 2^d takes at most d * (d + 2) steps. */
  lemma StepsLogarithmic(w: nat, target: nat, d: nat)
    requires target <= w < Pow2(d)
    ensures Steps(w, target) <= d * (d + 2)
  {
    NoneAbove(w, d);
    NoneAbove(target, d);
    StepsBound(w, target, d);
    OnesAbove(w, d);
  }
}
