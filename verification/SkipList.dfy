/**
Where the skip pointers of the block index lead, and how many steps a walk over them takes:
`InvertLowestOne`, `GetSkipHeight` and the choice made in `GetAncestor`, src/chain.cpp.
*/
module SkipList {
  import opened Numbers

  function InvertLowestOne(n: nat): nat {
    if n == 0 then 0 else BitAnd(n, n - 1)
  }

  /** The lowest power of two in the binary representation. */
  ghost function LowestOne(n: nat): (p: nat)
    requires n > 0
    ensures 0 < p <= n && (n % 2 == 0 ==> p >= 2)
  {
    if n % 2 == 1 then 1 else 2 * LowestOne(n / 2)
  }

  lemma {:induction false} InvertClearsLowestOne(n: nat)
    requires n > 0
    ensures InvertLowestOne(n) == n - LowestOne(n)
  {
    if n % 2 == 1 {
      BitAndSelf(n / 2);
    } else {
      InvertClearsLowestOne(n / 2);
    }
  }

  function GetSkipHeight(height: nat): (skip: nat)
    ensures height > 0 ==> skip < height
  {
    if height < 2 then 0
    else if height % 2 == 1 then
      InvertClearsLowestOne(height - 1);
      var once := InvertLowestOne(height - 1);
      assert InvertLowestOne(once) <= once by { if once > 0 { InvertClearsLowestOne(once); } }
      InvertLowestOne(once) + 1
    else
      InvertClearsLowestOne(height);
      InvertLowestOne(height)
  }

  /** Whether a walk from n down to the target follows the skip pointer and not the parent. */
  predicate Skips(n: nat, target: nat)
    requires n > 0
  {
    var skip, skipPrev := GetSkipHeight(n), GetSkipHeight(n - 1);
    skip == target || (skip > target && !(skipPrev < skip - 2 && skipPrev >= target))
  }

  function NextHeight(n: nat, target: nat): (next: nat)
    requires target < n
    ensures target <= next < n
  {
    if Skips(n, target) then GetSkipHeight(n) else n - 1
  }

  /** The length of the walk. */
  ghost function Steps(n: nat, target: nat): nat
    requires target <= n
    decreases n
  {
    if n == target then 0 else 1 + Steps(NextHeight(n, target), target)
  }

  // ---------------------------------------------------------------- clearing bits

  ghost function Clear(n: nat): nat {
    if n == 0 then 0 else n - LowestOne(n)
  }

  ghost function Ones(n: nat): nat {
    if n == 0 then 0 else n % 2 + Ones(n / 2)
  }

  lemma ClearIsInvert(n: nat)
    ensures InvertLowestOne(n) == Clear(n)
  {
    if n > 0 {
      InvertClearsLowestOne(n);
    }
  }

  lemma SkipOfEven(n: nat)
    requires n % 2 == 0
    ensures GetSkipHeight(n) == Clear(n) && Clear(n) % 2 == 0
  {
    ClearIsInvert(n);
    if n > 0 {
      hide Clear, Ones, InvertLowestOne;
      var a := n / 2;
      assert n == 2 * a;
      ClearDoubles(a);
    }
  }

  lemma SkipOfOdd(n: nat)
    requires n % 2 == 1 && n > 1
    ensures GetSkipHeight(n) == Clear(Clear(n - 1)) + 1 && Clear(Clear(n - 1)) % 2 == 0
  {
    hide Clear, Ones, InvertLowestOne;
    ClearIsInvert(n - 1);
    ClearIsInvert(Clear(n - 1));
    var a := (n - 1) / 2;
    assert n - 1 == 2 * a;
    ClearDoubles(a);
    ClearDoubles(Clear(a));
  }

  lemma ClearDoubles(n: nat)
    ensures Clear(2 * n) == 2 * Clear(n) && Ones(2 * n) == Ones(n)
  {
  }

  lemma {:induction false} OnesClear(n: nat)
    ensures Clear(n) <= n && (n > 0 ==> Clear(n) < n && Ones(Clear(n)) == Ones(n) - 1)
  {
    if n > 0 {
      if n % 2 == 1 {
        ClearDoubles(n / 2);
      } else {
        OnesClear(n / 2);
        ClearDoubles(n / 2);
        ClearDoubles(Clear(n / 2));
      }
    }
  }

  lemma {:induction false} OnesBound(n: nat, k: nat)
    requires n < Pow2(k)
    ensures Ones(n) <= k
  {
    if k > 0 && n > 0 {
      OnesBound(n / 2, k - 1);
    }
  }

  /** The lower end of the m-th aligned block of 2^i heights. */
  ghost function Edge(m: nat, i: nat): nat {
    m * Pow2(i)
  }

  /** An aligned block consists of two. */
  lemma Halves(m: nat, i: nat)
    ensures i == 0 ==> Edge(m, i) == m
    ensures i > 0 ==> Edge(m, i) == 2 * Edge(m, i - 1) == Edge(2 * m, i - 1)
  {
    if i > 0 {
      var p := Pow2(i - 1);
      assert Pow2(i) == 2 * p;
      MulAssoc(m, 2, p);
      MulAssoc(2, m, p);
    } else {
      assert Pow2(0) == 1;
    }
  }

  /** Strictly inside an aligned block the lowest one can be cleared without leaving it. */
  lemma {:induction false} ClearInside(n: nat, m: nat, i: nat)
    requires Edge(m, i) < n < Edge(m + 1, i)
    ensures Clear(n) >= Edge(m, i)
    decreases i
  {
    hide Edge;
    if n % 2 == 0 {
      Halves(m, i);
      Halves(m + 1, i);
      ClearInside(n / 2, m, i - 1);
      ClearDoubles(n / 2);
    }
  }

  // ---------------------------------------------------------------- the length of a walk

  /** Steps until the walk leaves an aligned block, at most. */
  ghost function Stay(n: nat): nat {
    2 * Ones(n - n % 2) + 1 + n % 2
  }

  /** An odd height goes to its skip height if that is not too low. */
  lemma OddSkips(n: nat, target: nat)
    requires n % 2 == 1 && target < n && GetSkipHeight(n) >= target
    ensures NextHeight(n, target) == GetSkipHeight(n)
  {
    if n > 1 {
      SkipOfOdd(n);
      SkipOfEven(n - 1);
      OnesClear(Clear(n - 1));
    }
  }

  lemma OddStay(n: nat, target: nat)
    requires n % 2 == 1 && target < n
    ensures var next := NextHeight(n, target); next == 0 || Stay(next) < Stay(n)
  {
    hide Clear, Ones, GetSkipHeight;
    if n > 1 && Skips(n, target) {
      SkipOfOdd(n);
      OnesClear(n - 1);
      OnesClear(Clear(n - 1));
    } else if n == 1 {
      SkipOfOne();
    }
  }

  lemma SkipOfOne()
    ensures GetSkipHeight(1) == 0
  {
  }

  lemma EvenStay(n: nat)
    requires n % 2 == 0 && n > 0
    ensures Stay(GetSkipHeight(n)) < Stay(n)
  {
    SkipOfEven(n);
    OnesClear(n);
  }

  /** An even height whose predecessor has the better skip loses two ones with that. */
  lemma Detour(n: nat)
    requires n % 2 == 0 && n > 2 && GetSkipHeight(n - 1) < GetSkipHeight(n) - 2
    ensures Stay(GetSkipHeight(n - 1)) + 2 <= Stay(n)
  {
    hide Clear, Ones, GetSkipHeight;
    var a := n / 2;
    SkipOfEven(n);
    SkipOfOdd(n - 1);
    assert Clear(n) == 2 * Clear(a) && Ones(n) == Ones(a) by { ClearDoubles(a); }
    var far := Clear(Clear(n - 2));
    assert far == 2 * Clear(Clear(a - 1)) by {
      ClearDoubles(a - 1);
      ClearDoubles(Clear(a - 1));
    }
    DetourHalf(a);
    assert Ones(far) == Ones(Clear(Clear(a - 1))) by { ClearDoubles(Clear(Clear(a - 1))); }
  }

  lemma DetourHalf(a: nat)
    requires a > 1 && Clear(Clear(a - 1)) + 1 < Clear(a)
    ensures Ones(Clear(Clear(a - 1))) + 2 <= Ones(a)
  {
    hide Clear, Ones;
    var h := a / 2;
    var c := h / 2;
    if a == 2 * h + 1 {
      DetourOdd(h);
    } else if h == 2 * c + 1 {
      DetourTwo(c);
    } else {
      DetourFour(c);
    }
  }

  lemma DetourOdd(h: nat)
    requires h > 0
    ensures Ones(Clear(Clear(2 * h))) + 2 <= Ones(2 * h + 1)
  {
    hide Clear, Ones;
    OnesOdd(h);
    ClearDoubles(h);
    OnesClear(2 * h);
    OnesClear(Clear(2 * h));
  }

  lemma DetourTwo(c: nat)
    requires Clear(Clear(4 * c + 1)) + 1 < Clear(4 * c + 2)
    ensures Ones(Clear(Clear(4 * c + 1))) + 2 <= Ones(4 * c + 2)
  {
    hide Clear, Ones;
    OddClears(2 * c);
    ClearTwice(c);
    OnesClear(c);
  }

  /** A multiple of four has no better skip below it. */
  lemma DetourFour(c: nat)
    requires c > 0
    ensures Clear(Clear(4 * c - 1)) + 1 >= Clear(4 * c)
  {
    hide Clear, Ones;
    OddClears(2 * c - 1);
    ClearsThree(c);
    OnesClear(c);
  }

  lemma OddClears(h: nat)
    ensures Clear(2 * h + 1) == 2 * h
  {
    assert (2 * h + 1) % 2 == 1;
  }

  /** From 4c + 2 and from 4c. */
  lemma ClearTwice(c: nat)
    ensures Clear(4 * c + 2) == 4 * c && Ones(4 * c + 2) == Ones(c) + 1
    ensures Clear(4 * c) == 4 * Clear(c) && Ones(4 * Clear(c)) == Ones(Clear(c))
  {
    hide Clear, Ones;
    ClearDoubles(2 * c + 1);
    OddClears(c);
    OnesOdd(c);
    ClearDoubles(2 * c);
    ClearDoubles(c);
    ClearDoubles(2 * Clear(c));
    ClearDoubles(Clear(c));
  }

  lemma OnesOdd(c: nat)
    ensures Ones(2 * c + 1) == 1 + Ones(c)
  {
    assert (2 * c + 1) / 2 == c && (2 * c + 1) % 2 == 1;
  }

  /** From 4c and from 4c - 2. */
  lemma ClearsThree(c: nat)
    requires c > 0
    ensures Clear(4 * c) == 4 * Clear(c) && Clear(4 * c - 2) == 4 * (c - 1)
  {
    hide Clear, Ones;
    ClearDoubles(2 * c);
    ClearDoubles(c);
    ClearDoubles(2 * c - 1);
    OddClears(c - 1);
  }

  ghost function Budget(i: nat, k: nat): nat {
    i * (2 * k + 2)
  }

  lemma OneMoreLevel(i: nat, k: nat)
    ensures Budget(i + 1, k) == Budget(i, k) + 2 * k + 2
  {
    MulAdd(i, 1, 2 * k + 2);
  }

  /** The walk from the upper half of a block to a target in the lower one. */
  lemma {:induction false} LeaveUpper(n: nat, target: nat, m: nat, i: nat, k: nat)
    requires m > 0 && Edge(m - 1, i) <= target < Edge(m, i) <= n < Edge(m + 1, i) && n < Pow2(k)
    ensures Steps(n, target) <= Stay(n) + Budget(i, k)
    decreases 2 * i + 1, n
  {
    hide Edge, Budget, Stay, Pow2, GetSkipHeight, Clear;
    var next := NextHeight(n, target);
    StayPositive(n);
    if next < Edge(m, i) {
      StepsInBlock(next, target, m - 1, i, k);
    } else if n % 2 == 1 {
      OddStay(n, target);
      LeaveUpper(next, target, m, i, k);
    } else if Skips(n, target) {
      EvenStay(n);
      LeaveUpper(next, target, m, i, k);
    } else {
      if GetSkipHeight(n) < target {
        SkipOfEven(n);
        ClearInside(n, m, i);
      }
      var far := GetSkipHeight(n - 1);
      OddSkips(n - 1, target);
      assert Steps(n, target) == 2 + Steps(far, target);
      DetourThere(n, target);
      Detour(n);
      if far < Edge(m, i) {
        StepsInBlock(far, target, m - 1, i, k);
      } else {
        LeaveUpper(far, target, m, i, k);
      }
    }
  }

  lemma StayPositive(n: nat)
    ensures Stay(n) >= 1
  {
  }

  lemma DetourThere(n: nat, target: nat)
    requires n % 2 == 0 && target < n && GetSkipHeight(n) > target && GetSkipHeight(n - 1) < GetSkipHeight(n) - 2
    ensures n > 2
  {
    SkipOfEven(n);
  }

  /** The walk inside an aligned block of 2^i heights. */
  lemma {:induction false} StepsInBlock(n: nat, target: nat, m: nat, i: nat, k: nat)
    requires Edge(m, i) <= target <= n < Edge(m + 1, i) && n < Pow2(k)
    ensures Steps(n, target) <= Budget(i, k)
    decreases 2 * i, n
  {
    hide Edge, Budget, Pow2, Steps, Ones;
    Halves(m, i);
    Halves(m + 1, i);
    if i == 0 {
      Arrived(n);
    } else {
      OneMoreLevel(i - 1, k);
      if target >= Edge(2 * m + 1, i - 1) {
        StepsInBlock(n, target, 2 * m + 1, i - 1, k);
      } else if n < Edge(2 * m + 1, i - 1) {
        StepsInBlock(n, target, 2 * m, i - 1, k);
      } else {
        LeaveUpper(n, target, 2 * m + 1, i - 1, k);
        OnesBound(n - n % 2, k);
      }
    }
  }

  lemma Arrived(n: nat)
    ensures Steps(n, n) == 0
  {
  }

  /** A walk between heights below 2^k takes at most 2k(k + 1) steps. */
  lemma WalkIsShort(n: nat, target: nat, k: nat)
    requires target <= n < Pow2(k)
    ensures Steps(n, target) <= 2 * k * (k + 1)
  {
    assert Edge(0, k) == 0 && Edge(1, k) == Pow2(k);
    StepsInBlock(n, target, 0, k, k);
    assert k * (2 * k + 2) == 2 * k * (k + 1);
  }

  /** A number of steps that is at most quadratic in the number of bits of a height. */
  ghost predicate IsShort(steps: nat, n: nat) {
    forall k: nat | n < Pow2(k) :: steps <= 2 * k * (k + 1)
  }

  lemma EveryWalkIsShort(n: nat, target: nat)
    requires target <= n
    ensures IsShort(Steps(n, target), n)
  {
    forall k: nat | n < Pow2(k) ensures Steps(n, target) <= 2 * k * (k + 1) {
      WalkIsShort(n, target, k);
    }
  }

  lemma NoStepsAreShort(n: nat)
    ensures IsShort(0, n)
  {
  }

  lemma OneStep(n: nat, target: nat)
    requires target < n
    ensures Steps(n, target) == 1 + Steps(NextHeight(n, target), target)
  {
  }

  // ---------------------------------------------------------------- the bound is of the right order

  /** Clearing the lowest of the ones from bit j up to bit k - 1. */
  lemma {:induction false} ClearRun(k: nat, j: nat)
    requires j < k
    ensures Pow2(k) >= Pow2(j + 1) && Clear(Pow2(k) - Pow2(j)) == Pow2(k) - Pow2(j + 1)
    decreases j
  {
    Doubled(k);
    Doubled(j + 1);
    if j > 0 {
      Doubled(j);
      ClearRun(k - 1, j - 1);
      ClearDoubles(Pow2(k - 1) - Pow2(j - 1));
    } else {
      PowMonotone(2, 1, k);
    }
  }

  lemma Doubled(k: nat)
    requires k > 0
    ensures Pow2(k) == 2 * Pow2(k - 1)
  {
  }

  /** Clearing two ones of the run. */
  lemma ClearRunTwice(k: nat, j: nat)
    requires 0 < j < k
    ensures Pow2(j) % 2 == Pow2(k) % 2 == 0 && Pow2(k) >= Pow2(j + 1)
    ensures Clear(Clear(Pow2(k) - Pow2(j))) == if j + 2 <= k then Pow2(k) - Pow2(j + 2) else 0
    ensures j + 2 < k ==> Pow2(k) - Pow2(j + 2) >= 8
  {
    hide Clear, Pow2;
    Doubled(j);
    Doubled(k);
    ClearRun(k, j);
    if j + 1 < k {
      ClearRun(k, j + 1);
      if j + 2 < k {
        ClearRun(k, j + 2);
        Doubled(j + 3);
        AtLeast8(j + 2);
      }
    } else {
      ClearZero();
    }
  }

  lemma ClearZero()
    ensures Clear(0) == 0
  {
  }

  lemma AtLeast8(k: nat)
    requires k >= 3
    ensures Pow2(k) >= 8
  {
    PowMonotone(2, 3, k);
    assert Pow2(3) == 8;
  }

  /** The walk down to height 2 from a run of ones, two of which go at each step. */
  lemma {:induction false} RunIsSlow(k: nat, j: nat)
    requires 0 < j < k
    ensures Pow2(k) > Pow2(j) && Pow2(k - 1) >= 2
    ensures Steps(Pow2(k) - Pow2(j) + 1, 2) >= Steps(Pow2(k - 1), 2) + (k - j + 1) / 2
    decreases k - j
  {
    hide Clear, Pow2, GetSkipHeight;
    ClearRunTwice(k, j);
    Doubled(k);
    AtLeast2(k - 1);
    var n := Pow2(k) - Pow2(j) + 1;
    if j < k - 1 {
      Doubled(j + 1);
      Doubled(k - 1);
    }
    SkipOfOdd(n);
    if j + 2 < k {
      OddSkips(n, 2);
      RunIsSlow(k, j + 2);
    } else {
      assert NextHeight(n, 2) == n - 1;
      if j == k - 2 {
        LastPair(k);
      }
    }
  }

  lemma AtLeast2(k: nat)
    requires k >= 1
    ensures Pow2(k) >= 2
  {
    PowMonotone(2, 1, k);
    assert Pow2(1) == 2;
  }

  /** From the two highest ones the walk goes to the highest. */
  lemma LastPair(k: nat)
    requires k >= 3
    ensures Pow2(k) - Pow2(k - 2) > 2 && NextHeight(Pow2(k) - Pow2(k - 2), 2) == Pow2(k - 1) >= 2
  {
    hide Clear, Pow2, GetSkipHeight, NextHeight;
    var p := Pow2(k - 3);
    Doubled(k);
    Doubled(k - 1);
    Doubled(k - 2);
    ClearRun(k, k - 2);
    FarSkip(k);
    PairStep(6 * p, 4 * p);
  }

  lemma PairStep(n: nat, top: nat)
    requires n > 2 && n % 2 == 0 && Clear(n) == top > 2 && (Clear(Clear(n - 2)) >= top || Clear(Clear(n - 2)) == 0)
    ensures NextHeight(n, 2) == top
  {
    hide Clear, GetSkipHeight;
    SkipOfEven(n);
    SkipOfOdd(n - 1);
  }

  /** The height below the two highest ones has no skip that is better and not too low. */
  lemma FarSkip(k: nat)
    requires k >= 3
    ensures Pow2(k) - Pow2(k - 2) >= 2
    ensures var far := Clear(Clear(Pow2(k) - Pow2(k - 2) - 2)); far >= Pow2(k - 1) || far == 0
  {
    hide Clear, Pow2;
    Doubled(k);
    Doubled(k - 1);
    AtLeast2(k - 2);
    if k == 3 {
      SmallPair();
    } else if k == 4 {
      MiddlePair();
    } else {
      NotBelow(Pow2(k) - Pow2(k - 2) - 2, Pow2(k - 1), k);
    }
  }

  lemma SmallPair()
    ensures Pow2(3) == 8 && Pow2(1) == 2 && Clear(Clear(4)) == 0
  {
  }

  lemma MiddlePair()
    ensures Pow2(4) == 16 && Pow2(2) == 4 && Clear(Clear(10)) == 0
  {
    assert Clear(10) == 8;
  }

  /** Two ones cleared of a number with more below its highest two leave the highest. */
  lemma NotBelow(x: nat, top: nat, k: nat)
    requires k >= 5 && top == Pow2(k - 1) && x == Pow2(k) - Pow2(k - 2) - 2
    ensures Clear(Clear(x)) >= top
  {
    hide Clear, Pow2;
    var r := Pow2(k - 5);
    Doubled(k);
    Doubled(k - 1);
    Doubled(k - 2);
    Doubled(k - 3);
    Doubled(k - 4);
    assert x == 2 * (12 * r - 1);
    var h := 12 * r - 1;
    ClearsLow(3 * r - 1);
    ClearDoubles(h);
    ClearDoubles(Clear(h));
  }

  /** The lowest two ones of 4x + 3 are worth three. */
  lemma ClearsLow(x: nat)
    ensures Clear(Clear(4 * x + 3)) == 4 * x
  {
    hide Clear, Ones;
    OddClears(2 * x + 1);
    ClearDoubles(2 * x + 1);
    OddClears(x);
  }

  /** From height 2^k to height 2 the walk takes at least about k^2 / 4 steps: no bound that is
      proportional to the number of bits holds. */
  lemma {:induction false} WalkIsNotLogarithmic(k: nat)
    requires k >= 1
    ensures Pow2(k) >= 2 && 4 * Steps(Pow2(k), 2) >= k * k - 1
    decreases k
  {
    hide Steps, Pow2;
    AtLeast2(k);
    if k > 1 {
      WalkIsNotLogarithmic(k - 1);
      RunIsSlow(k, 1);
      FromPower(k);
      assert k * k - 1 == (k - 1) * (k - 1) - 1 + 2 * k - 1;
    }
  }

  /** The first step from a power of two is to the height below. */
  lemma FromPower(k: nat)
    requires k > 1
    ensures Pow2(k) > 2 && Steps(Pow2(k), 2) == 1 + Steps(Pow2(k) - Pow2(1) + 1, 2)
  {
    hide Clear, GetSkipHeight, Pow2;
    Doubled(k);
    AtLeast2(k - 1);
    PowerClears(k);
    SkipOfEven(Pow2(k));
    assert Pow2(1) == 2 by { SmallPair(); }
  }

  lemma {:induction false} PowerClears(k: nat)
    ensures Clear(Pow2(k)) == 0
  {
    if k > 0 {
      PowerClears(k - 1);
      Doubled(k);
      ClearDoubles(Pow2(k - 1));
    }
  }
}
