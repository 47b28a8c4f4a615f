/** Powers, quotients and remainders, in the forms the other modules need. */
module Numbers {
  const TWO_64 := 0x1_0000_0000_0000_0000
  const TWO_256 := 0x1_0000000000000000_0000000000000000_0000000000000000_0000000000000000

  function Pow(b: nat, k: nat): (p: nat)
    ensures b > 0 ==> p > 0
  {
    if k == 0 then 1 else b * Pow(b, k - 1)
  }

  function Pow2(k: nat): (p: nat)
    ensures p > 0
  {
    Pow(2, k)
  }

  lemma {:induction false} PowAdd(b: nat, j: nat, k: nat)
    ensures Pow(b, j + k) == Pow(b, j) * Pow(b, k)
    decreases j
  {
    if j > 0 {
      PowAdd(b, j - 1, k);
      MulAssoc(b, Pow(b, j - 1), Pow(b, k));
    } else {
      assert Pow(b, 0) * Pow(b, k) == Pow(b, k);
    }
  }

  lemma {:induction false} PowMonotone(b: nat, j: nat, k: nat)
    requires b > 0 && j <= k
    ensures Pow(b, j) <= Pow(b, k)
  {
    PowAdd(b, j, k - j);
    ProductMonotone(1, Pow(b, k - j), Pow(b, j));
    assert Pow(b, k - j) * Pow(b, j) == Pow(b, j) * Pow(b, k - j);
  }

  lemma {:induction false} PowMul(b: nat, j: nat, k: nat)
    ensures Pow(Pow(b, j), k) == Pow(b, j * k)
    decreases k
  {
    if k > 0 {
      PowMul(b, j, k - 1);
      assert j * k == j + j * (k - 1);
      PowAdd(b, j, j * (k - 1));
    } else {
      assert j * k == 0;
    }
  }

  lemma MulAssoc(a: int, b: int, c: int)
    ensures a * (b * c) == a * b * c
  {
  }

  lemma MulComm(a: int, b: int)
    ensures a * b == b * a
  {
  }

  lemma MulAdd(a: int, b: int, f: int)
    ensures (a + b) * f == a * f + b * f
  {
  }

  lemma SwapFactors(v: int, a: int, b: int, c: int)
    ensures v * a * (b * c) == v * b * (a * c)
  {
    calc {
      v * a * (b * c);
    == { MulAssoc(v * a, b, c); }
      v * a * b * c;
    == { MulAssoc(v, a, b); MulComm(a, b); MulAssoc(v, b, a); }
      v * b * a * c;
    == { MulAssoc(v * b, a, c); }
      v * b * (a * c);
    }
  }

  lemma ProductMonotone(a: nat, b: nat, m: nat)
    requires a <= b
    ensures a * m <= b * m
  {
    assert b * m == a * m + (b - a) * m;
  }

  lemma QuotientBounds(a: nat, m: nat)
    requires m > 0
    ensures (a / m) * m <= a < (a / m) * m + m
    ensures a == (a / m) * m + a % m
  {
  }

  lemma SmallMultiple(d: int, m: int)
    requires 0 - m < d * m < m
    ensures d == 0
  {
    assert d >= 1 ==> d * m >= m;
    assert d <= -1 ==> d * m <= 0 - m;
  }

  /** A quotient and a remainder are determined by their defining equation. */
  lemma DivUnique(a: nat, m: nat, q: nat, r: nat)
    requires m > 0 && a == q * m + r && r < m
    ensures a / m == q && a % m == r
  {
    QuotientBounds(a, m);
    assert (a / m - q) * m == r - a % m;
    SmallMultiple(a / m - q, m);
  }

  lemma DivModAddMultiple(a: nat, k: nat, m: nat)
    requires m > 0
    ensures (a + k * m) / m == a / m + k && (a + k * m) % m == a % m
  {
    QuotientBounds(a, m);
    assert (a / m + k) * m == (a / m) * m + k * m;
    DivUnique(a + k * m, m, a / m + k, a % m);
  }

  lemma DivBelow(a: nat, m: nat, bound: nat)
    requires m > 0 && a < bound * m
    ensures a / m < bound
  {
    QuotientBounds(a, m);
    if a / m >= bound {
      ProductMonotone(bound, a / m, m);
    }
  }

  lemma DivDiv(a: nat, m: nat, k: nat)
    requires m > 0 && k > 0
    ensures m * k > 0 && (a / m) / k == a / (m * k)
  {
    var q, r := a / m, a % m;
    QuotientBounds(a, m);
    QuotientBounds(q, k);
    assert a == ((q / k) * k + q % k) * m + r;
    assert ((q / k) * k + q % k) * m == (q / k) * (m * k) + (q % k) * m;
    ProductMonotone(q % k + 1, k, m);
    assert (q % k + 1) * m == (q % k) * m + m;
    assert k * m == m * k;
    DivUnique(a, m * k, q / k, (q % k) * m + r);
  }

  /** Splitting x * p at p * q is splitting x at q. */
  lemma SplitProduct(x: nat, p: nat, q: nat)
    requires p > 0 && q > 0
    ensures p * q > 0 && (x * p) / (p * q) == x / q && (x * p) % (p * q) == (x % q) * p
    ensures (x / q) * (p * q) + (x % q) * p == x * p
    ensures (x % q) * p + p <= p * q
  {
    var h, l := x / q, x % q;
    QuotientBounds(x, q);
    ProductMonotone(l + 1, q, p);
    assert (l + 1) * p == l * p + p;
    assert q * p == p * q;
    assert h * q * p == h * (p * q) by { MulAssoc(h, q, p); }
    assert (h * q + l) * p == h * q * p + l * p;
    DivUnique(x * p, p * q, h, l * p);
  }

  lemma MulMono(a: nat, b: nat, c: nat, d: nat)
    requires a <= b && c <= d
    ensures a * c <= b * d
  {
    ProductMonotone(a, b, c);
    ProductMonotone(c, d, b);
    assert b * c == c * b && b * d == d * b;
  }

  lemma Pow2Values()
    ensures Pow2(8) == 0x100 && Pow2(16) == 0x1_0000 && Pow2(32) == 0x1_0000_0000
  {
    assert Pow(2, 4) == 16;
    PowAdd(2, 4, 4);
    PowAdd(2, 8, 8);
    PowAdd(2, 16, 16);
  }

  // ---------------------------------------------------------------- bits

  /** Bitwise or of two numbers, bit by bit. */
  function BitOr(x: nat, y: nat): nat {
    if x == 0 then y
    else if y == 0 then x
    else 2 * BitOr(x / 2, y / 2) + if x % 2 == 1 || y % 2 == 1 then 1 else 0
  }

  /** Bits below position s and bits from position s on do not interfere. */
  lemma {:induction false} BitOrDisjoint(x: nat, high: nat, s: nat)
    requires x < Pow2(s)
    ensures BitOr(x, high * Pow2(s)) == x + high * Pow2(s) == BitOr(high * Pow2(s), x)
    decreases s
  {
    var y := high * Pow2(s);
    if s > 0 && x > 0 && y > 0 {
      var half := high * Pow2(s - 1);
      assert y == 2 * half by { MulAssoc(high, 2, Pow2(s - 1)); MulAssoc(2, high, Pow2(s - 1)); }
      BitOrDisjoint(x / 2, high, s - 1);
    }
  }

  lemma {:induction false} BitOrBound(x: nat, y: nat, k: nat)
    requires x < Pow2(k) && y < Pow2(k)
    ensures BitOr(x, y) < Pow2(k)
    decreases k
  {
    if k > 0 && x > 0 && y > 0 {
      BitOrBound(x / 2, y / 2, k - 1);
    }
  }

  predicate TestBit(x: nat, k: nat) {
    (x / Pow2(k)) % 2 == 1
  }

  /** Bitwise and of two numbers, bit by bit. */
  function BitAnd(x: nat, y: nat): nat {
    if x == 0 || y == 0 then 0
    else 2 * BitAnd(x / 2, y / 2) + if x % 2 == 1 && y % 2 == 1 then 1 else 0
  }

  lemma {:induction false} BitAndSelf(x: nat)
    ensures BitAnd(x, x) == x
  {
    if x > 0 {
      BitAndSelf(x / 2);
    }
  }

  /** Setting a clear bit adds its weight. */
  lemma {:induction false} BitOrClear(x: nat, k: nat)
    requires !TestBit(x, k)
    ensures BitOr(x, Pow2(k)) == x + Pow2(k)
    decreases k
  {
    if k > 0 {
      DivDiv(x, 2, Pow2(k - 1));
      BitOrClear(x / 2, k - 1);
    }
  }
}
