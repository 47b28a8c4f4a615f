/**
Compact difficulty targets, the last part of src/arith_uint256.cpp, and the work of a block,
`GetBlockProof` in src/chain.cpp.

A compact number has a one-byte exponent to base 256, a sign bit and a 23-bit mantissa.
`Decode` and `Encode` say on plain numbers what SetCompact and GetCompact compute on limbs.
*/
module CompactTarget {
  import opened Numbers
  import opened ArithUint256

  const SIGN_BIT := 0x0080_0000     // also the first number that is no mantissa
  const SIZE_UNIT := 0x0100_0000

  function SizeOf(nCompact: nat): nat { nCompact / SIZE_UNIT }
  function MantissaOf(nCompact: nat): nat { nCompact % SIGN_BIT }
  predicate SignOf(nCompact: nat) { (nCompact / SIGN_BIT) % 2 == 1 }

  datatype Decoded = Decoded(value: nat, negative: bool, overflow: bool)

  /** The branches of `SetCompact`. */
  function Decode(nCompact: nat): Decoded {
    var size := SizeOf(nCompact);
    var word := if size <= 3 then MantissaOf(nCompact) / Pow2(8 * (3 - size)) else MantissaOf(nCompact);
    Decoded(if size <= 3 then word else (word * Pow2(8 * (size - 3))) % TWO_256,
            word != 0 && SignOf(nCompact),
            word != 0 && (size > 34 || (word > 0xff && size > 33) || (word > 0xffff && size > 32)))
  }

  lemma PowersOf256(k: nat)
    ensures Pow2(8 * k) == Pow(256, k)
  {
    Pow2Values();
    PowMul(2, 8, k);
  }

  lemma TwoTo256Is()
    ensures Pow(256, 32) == TWO_256
  {
    PowersOf256(32);
    TwoTo256();
  }

  /** The number a compact encoding stands for, without any width. */
  ghost function Exact(nCompact: nat): nat {
    var size, word := SizeOf(nCompact), MantissaOf(nCompact);
    if size <= 3 then word / Pow(256, 3 - size) else word * Pow(256, size - 3)
  }

  /** Overflow is reported exactly when the number does not fit 256 bits; otherwise it is exact. */
  lemma OverflowIsExact(nCompact: nat)
    ensures Decode(nCompact).overflow <==> Exact(nCompact) >= TWO_256
    ensures !Decode(nCompact).overflow ==> Decode(nCompact).value == Exact(nCompact)
  {
    if SizeOf(nCompact) <= 3 {
      SmallIsExact(nCompact);
    } else {
      LargeIsExact(nCompact);
    }
  }

  lemma SmallIsExact(nCompact: nat)
    requires SizeOf(nCompact) <= 3
    ensures Exact(nCompact) < TWO_256 && !Decode(nCompact).overflow && Decode(nCompact).value == Exact(nCompact)
  {
    hide Pow, SizeOf, Pow2, SignOf;
    var size, word := SizeOf(nCompact), MantissaOf(nCompact);
    PowersOf256(3 - size);
    QuotientAtMost(word, Pow(256, 3 - size));
  }

  lemma QuotientAtMost(n: nat, d: nat)
    requires d > 0
    ensures n / d <= n
  {
    QuotientBounds(n, d);
    ProductMonotone(1, d, n / d);
    MulComm(d, n / d);
  }

  lemma LargeIsExact(nCompact: nat)
    requires SizeOf(nCompact) > 3
    ensures Decode(nCompact).overflow <==> Exact(nCompact) >= TWO_256
    ensures !Decode(nCompact).overflow ==> Decode(nCompact).value == Exact(nCompact)
  {
    hide Pow, SizeOf, Pow2, SignOf;
    var size, word := SizeOf(nCompact), MantissaOf(nCompact);
    PowersOf256(size - 3);
    Threshold(word, size);
    SmallRemainder(word * Pow(256, size - 3));
  }

  lemma SmallRemainder(n: nat)
    ensures n < TWO_256 ==> n % TWO_256 == n
  {
  }

  /** The three comparisons of the overflow test are the comparison with 2^256. */
  lemma Threshold(word: nat, size: nat)
    requires size > 3 && word < SIGN_BIT
    ensures word * Pow(256, size - 3) >= TWO_256
            <==> word != 0 && (size > 34 || (word > 0xff && size > 33) || (word > 0xffff && size > 32))
  {
    TwoTo256Is();
    var p := Pow(256, size - 3);
    if size > 34 {
      PowMonotone(256, 32, size - 3);
      if word != 0 {
        ProductMonotone(1, word, p);
      }
    } else {
      PowAdd(256, size - 3, 35 - size);
      var q := Pow(256, 35 - size);
      assert p * q == TWO_256;
      CompareProducts(word, q, p);
      SmallPowers();
      if size <= 32 {
        PowMonotone(256, 3, 35 - size);
      }
    }
  }

  lemma SmallPowers()
    ensures Pow(256, 0) == 1 && Pow(256, 1) == 0x100 && Pow(256, 2) == 0x1_0000 && Pow(256, 3) == 0x100_0000
  {
    assert Pow(256, 0) == 1;
    assert Pow(256, 1) == 256 * Pow(256, 0);
    assert Pow(256, 2) == 256 * Pow(256, 1);
    assert Pow(256, 3) == 256 * Pow(256, 2);
  }

  lemma CompareProducts(a: nat, b: nat, p: nat)
    requires p > 0
    ensures a * p >= p * b <==> a >= b
  {
    MulComm(p, b);
    if a >= b {
      ProductMonotone(b, a, p);
    } else {
      ProductMonotone(a + 1, b, p);
      MulAdd(a, 1, p);
    }
  }

  // ---------------------------------------------------------------- encoding

  /** Number of significant bytes. */
  function ByteLen(x: nat): nat {
    if x == 0 then 0 else 1 + ByteLen(x / 256)
  }

  lemma {:induction false} ByteLenBounds(x: nat)
    ensures x < Pow(256, ByteLen(x)) && (x > 0 ==> ByteLen(x) > 0 && Pow(256, ByteLen(x) - 1) <= x)
  {
    if x > 0 {
      ByteLenBounds(x / 256);
    }
  }

  lemma {:induction false} ByteLenUnique(x: nat, n: nat)
    requires n > 0 && Pow(256, n - 1) <= x < Pow(256, n)
    ensures ByteLen(x) == n
    decreases n
  {
    if n > 1 {
      ByteLenUnique(x / 256, n - 1);
    } else {
      assert Pow(256, 0) == 1 && Pow(256, 1) == 256;
      assert ByteLen(x / 256) == 0;
    }
  }

  datatype Parts = Parts(mantissa: nat, size: nat)

  /** Mantissa and exponent as `GetCompact` chooses them. */
  function Split(x: nat): Parts {
    var size := ByteLen(x);
    var m := if size <= 3 then x * Pow2(8 * (3 - size)) else x / Pow2(8 * (size - 3));
    if m >= SIGN_BIT then Parts(m / 256, size + 1) else Parts(m, size)
  }

  function Pack(p: Parts, negative: bool): nat {
    p.mantissa + p.size * SIZE_UNIT + if negative && p.mantissa != 0 then SIGN_BIT else 0
  }

  function Encode(x: nat, negative: bool): nat {
    Pack(Split(x), negative)
  }

  /** The first choice of mantissa always has three significant bytes. */
  lemma FullMantissa(x: nat)
    requires x > 0
    ensures var size := ByteLen(x);
            var m := if size <= 3 then x * Pow2(8 * (3 - size)) else x / Pow2(8 * (size - 3));
            size > 0 && 0x1_0000 <= m < 0x100_0000
  {
    var size := ByteLen(x);
    ByteLenBounds(x);
    SmallPowers();
    if size <= 3 {
      PowersOf256(3 - size);
      var f := Pow(256, 3 - size);
      PowAdd(256, size - 1, 3 - size);
      PowAdd(256, size, 3 - size);
      ProductMonotone(Pow(256, size - 1), x, f);
      ProductMonotone(x + 1, Pow(256, size), f);
      MulAdd(x, 1, f);
    } else {
      PowersOf256(size - 3);
      var f := Pow(256, size - 3);
      PowAdd(256, 3, size - 3);
      PowAdd(256, 2, size - 3);
      DivBelow(x, f, Pow(256, 3));
      QuotientBounds(x, f);
      if x / f < Pow(256, 2) {
        ProductMonotone(x / f + 1, Pow(256, 2), f);
        MulAdd(x / f, 1, f);
      }
    }
  }

  /** The parts, whichever way the sign bit is avoided. */
  lemma SplitFacts(x: nat)
    requires x > 0
    ensures var p := Split(x);
            && 0x8000 <= p.mantissa < SIGN_BIT && p.size > 0 && ByteLen(x) <= p.size <= ByteLen(x) + 1
            && p.mantissa == if p.size <= 3 then x * Pow(256, 3 - p.size) else x / Pow(256, p.size - 3)
  {
    var size := ByteLen(x);
    FullMantissa(x);
    if size <= 3 {
      PowersOf256(3 - size);
      WidenSmall(x, size);
    } else {
      PowersOf256(size - 3);
      WidenLarge(x, Pow(256, size - 3));
    }
  }

  /** Dropping the low byte of the mantissa is one more byte of size. */
  lemma WidenSmall(x: nat, size: nat)
    requires size <= 3
    ensures x * Pow(256, 3 - size) / 256 == if size == 3 then x / Pow(256, 1) else x * Pow(256, 2 - size)
  {
    if size == 3 {
      assert Pow(256, 0) == 1 && Pow(256, 1) == 256;
    } else {
      var f := Pow(256, 2 - size);
      MulComm(256, f);
      MulAssoc(x, f, 256);
      DivUnique(x * (256 * f), 256, x * f, 0);
    }
  }

  lemma WidenLarge(x: nat, f: nat)
    requires f > 0
    ensures x / f / 256 == x / (256 * f)
  {
    DivDiv(x, f, 256);
    MulComm(f, 256);
  }

  lemma {:induction false} ByteLenAtMost32(x: nat)
    requires x < TWO_256
    ensures ByteLen(x) <= 32
  {
    ByteLenBounds(x);
    TwoTo256Is();
    if ByteLen(x) > 32 {
      PowMonotone(256, 32, ByteLen(x) - 1);
    }
  }

  /** The fields of an encoding are the parts that went in. */
  lemma Fields(m: nat, size: nat, sign: bool)
    requires m < SIGN_BIT
    ensures var n := m + size * SIZE_UNIT + if sign then SIGN_BIT else 0;
            SizeOf(n) == size && MantissaOf(n) == m && (SignOf(n) <==> sign)
  {
    var n := m + size * SIZE_UNIT + if sign then SIGN_BIT else 0;
    DivUnique(n, SIZE_UNIT, size, n - size * SIZE_UNIT);
    DivUnique(n, SIGN_BIT, 2 * size + (if sign then 1 else 0), m);
  }

  /** Weight of the lowest bit of the mantissa. */
  ghost function Unit(x: nat): (u: nat)
    ensures u > 0
  {
    var size := Split(x).size;
    if size <= 3 then 1 else Pow(256, size - 3)
  }

  ghost function RoundDown(x: nat, unit: nat): (y: nat)
    requires unit > 0
    ensures y <= x < y + unit
  {
    QuotientBounds(x, unit);
    x / unit * unit
  }

  ghost function Rounded(x: nat): (y: nat)
    ensures y <= x < y + Unit(x)
  {
    RoundDown(x, Unit(x))
  }

  /** Decoding an encoding: the sign comes back, nothing overflows, and the value is x rounded
      down to the unit of its mantissa, which has at least 16 significant bits. */
  lemma DecodeEncode(x: nat, negative: bool)
    requires x < TWO_256
    ensures var n, d := Encode(x, negative), Decode(Encode(x, negative));
            && n < BASE && !d.overflow && (d.negative <==> negative && x > 0)
            && d.value == Rounded(x)
            && (Unit(x) > 1 ==> x / Unit(x) >= 0x8000)
  {
    if x > 0 {
      DecodeEncodePositive(x, negative);
    } else {
      hide Pow, Pow2;
      PowersOf256(3);
      Fields(0, 0, false);
      DivUnique(0, Pow(256, 3), 0, 0);
    }
  }

  lemma DecodeEncodePositive(x: nat, negative: bool)
    requires 0 < x < TWO_256
    ensures var n, d := Encode(x, negative), Decode(Encode(x, negative));
            && n < BASE && !d.overflow && (d.negative <==> negative)
            && d.value == Rounded(x)
            && (Unit(x) > 1 ==> x / Unit(x) >= 0x8000)
  {
    hide Pow, Pow2, SizeOf, MantissaOf, SignOf, Split, ByteLen;
    var p := Split(x);
    SmallPowers();
    SplitFacts(x);
    ByteLenAtMost32(x);
    Fields(p.mantissa, p.size, negative);
    QuotientBounds(x, Unit(x));
    if p.size <= 3 {
      PowersOf256(3 - p.size);
      DivUnique(p.mantissa, Pow(256, 3 - p.size), x, 0);
    }
    OverflowIsExact(Encode(x, negative));
  }

  // ---------------------------------------------------------------- canonical encodings

  /** No redundant leading byte, no bits that a small size shifts out, no sign on zero. */
  predicate Canonical(nCompact: nat) {
    var size, m := SizeOf(nCompact), MantissaOf(nCompact);
    nCompact == 0 || (size > 0 && m >= 0x8000 && (size < 3 ==> m % Pow(256, 3 - size) == 0))
  }

  /** What a canonical encoding stands for is below 2^256. */
  predicate Fits(nCompact: nat) {
    SizeOf(nCompact) < 33 || (SizeOf(nCompact) == 33 && MantissaOf(nCompact) < 0x1_0000)
  }

  /** Exactly the canonical encodings that fit survive decoding and encoding again. */
  lemma EncodeDecode(nCompact: nat)
    requires nCompact < BASE
    ensures var d := Decode(nCompact);
            Encode(d.value, d.negative) == nCompact <==> Canonical(nCompact) && Fits(nCompact)
    ensures Canonical(nCompact) ==> (Fits(nCompact) <==> !Decode(nCompact).overflow)
  {
    hide Encode;
    if Decode(nCompact).overflow {
      OverflowIsLost(nCompact);
    } else {
      FittingSurvives(nCompact);
    }
  }

  /** An encoding never overflows, so a form that does cannot come back. */
  lemma OverflowIsLost(nCompact: nat)
    requires Decode(nCompact).overflow
    ensures var d := Decode(nCompact);
            Encode(d.value, d.negative) != nCompact
  {
    hide Encode, Rounded, Unit, Pow2;
    var d := Decode(nCompact);
    DecodeEncode(d.value, d.negative);
  }

  lemma FittingSurvives(nCompact: nat)
    requires nCompact < BASE && !Decode(nCompact).overflow
    ensures var d := Decode(nCompact);
            Encode(d.value, d.negative) == nCompact <==> Canonical(nCompact)
  {
    var d := Decode(nCompact);
    OverflowIsExact(nCompact);
    EncodedIsCanonical(d.value, d.negative);
    if Canonical(nCompact) && nCompact != 0 {
      SplitCanonical(nCompact);
      PackFields(nCompact, d.negative);
    }
  }

  /** Being canonical is not enough: this form overflows and does not come back. */
  lemma CanonicalMayOverflow()
    ensures var n := 0x227f_ff00;
            var d := Decode(n);
            Canonical(n) && d.overflow && Encode(d.value, d.negative) != n
  {
    hide Encode;
    var n := 0x227f_ff00;
    assert SizeOf(n) == 34 && MantissaOf(n) == 0x7f_ff00;
    EncodeDecode(n);
  }

  lemma EncodedIsCanonical(x: nat, negative: bool)
    ensures Canonical(Encode(x, negative))
  {
    if x > 0 {
      var p := Split(x);
      SplitFacts(x);
      if p.size < 3 {
        DivUnique(p.mantissa, Pow(256, 3 - p.size), x, 0);
      }
      PackIsCanonical(p, negative);
    }
  }

  lemma PackIsCanonical(p: Parts, negative: bool)
    requires p.size > 0 && 0x8000 <= p.mantissa < SIGN_BIT
    requires p.size < 3 ==> p.mantissa % Pow(256, 3 - p.size) == 0
    ensures Canonical(Pack(p, negative))
  {
    Fields(p.mantissa, p.size, negative);
  }

  /** So encoding loses precision only once. */
  lemma EncodeStable(x: nat, negative: bool)
    requires x < TWO_256
    ensures var d := Decode(Encode(x, negative));
            Encode(d.value, d.negative) == Encode(x, negative)
  {
    DecodeEncode(x, negative);
    EncodedIsCanonical(x, negative);
    EncodeDecode(Encode(x, negative));
  }

  lemma PackFields(n: nat, negative: bool)
    requires MantissaOf(n) != 0 && (negative <==> SignOf(n))
    ensures Pack(Parts(MantissaOf(n), SizeOf(n)), negative) == n
  {
    QuotientBounds(n, SIGN_BIT);
    QuotientBounds(n / SIGN_BIT, 2);
    DivDiv(n, SIGN_BIT, 2);
  }

  lemma SplitCanonical(nCompact: nat)
    requires Canonical(nCompact) && nCompact != 0
    ensures Exact(nCompact) > 0 && Split(Exact(nCompact)) == Parts(MantissaOf(nCompact), SizeOf(nCompact))
  {
    var size, m, x := SizeOf(nCompact), MantissaOf(nCompact), Exact(nCompact);
    SmallPowers();
    if size <= 3 {
      var f := Pow(256, 3 - size);
      QuotientBounds(m, f);
      SplitOfSmall(x, size, m);
    } else {
      SplitOfLarge(m, size);
    }
  }

  lemma SplitOfSmall(x: nat, size: nat, m: nat)
    requires 0 < size <= 3 && m == x * Pow(256, 3 - size) && 0x8000 <= m < SIGN_BIT
    ensures x > 0 && Split(x) == Parts(m, size)
  {
    SmallPowers();
    if m >= 0x1_0000 {
      ByteLenUnique(x, size);
      PowersOf256(3 - size);
    } else {
      assert size > 1;
      ByteLenUnique(x, size - 1);
      PowersOf256(4 - size);
      WidenSmall(x, size - 1);
    }
  }

  lemma SplitOfLarge(m: nat, size: nat)
    requires size > 3 && 0x8000 <= m < SIGN_BIT
    ensures m * Pow(256, size - 3) > 0 && Split(m * Pow(256, size - 3)) == Parts(m, size)
  {
    var u := Pow(256, size - 3);
    var x := m * u;
    SmallPowers();
    ProductMonotone(m + 1, 0x100_0000, u);
    MulAdd(m, 1, u);
    PowAdd(256, 3, size - 3);
    if m >= 0x1_0000 {
      ProductMonotone(0x1_0000, m, u);
      PowAdd(256, 2, size - 3);
      ByteLenUnique(x, size);
      PowersOf256(size - 3);
      DivUnique(x, u, m, 0);
    } else {
      ProductMonotone(m + 1, 0x1_0000, u);
      ProductMonotone(256, m, u);
      PowAdd(256, 2, size - 3);
      PowAdd(256, 1, size - 3);
      ByteLenUnique(x, size - 1);
      if size == 4 {
        assert x * Pow2(0) == x;
        DivUnique(x, 256, m, 0);
      } else {
        PowersOf256(size - 4);
        var f := Pow(256, size - 4);
        MulAssoc(m, 256, f);
        DivUnique(x, f, m * 256, 0);
      }
    }
  }

  // ---------------------------------------------------------------- the methods on limbs

  method SetCompact(t: Uint256, nCompact: Limb) returns (negative: bool, overflow: bool)
    requires t.Valid()
    modifies t.pn
    ensures Decoded(t.Value(), negative, overflow) == Decode(nCompact)
  {
    var nSize := nCompact / SIZE_UNIT;
    var nWord := nCompact % SIGN_BIT;
    if nSize <= 3 {
      QuotientAtMost(nWord, Pow2(8 * (3 - nSize)));
      nWord := nWord / Pow2(8 * (3 - nSize));
      t.Set(nWord);
    } else {
      t.Set(nWord);
      t.ShiftLeft(8 * (nSize - 3));
    }
    negative := nWord != 0 && TestBit(nCompact, 23);
    overflow := nWord != 0 && (nSize > 34 || (nWord > 0xff && nSize > 33) || (nWord > 0xffff && nSize > 32));
    Pow2Of23();
  }

  lemma Pow2Of23()
    ensures Pow2(23) == SIGN_BIT && Pow2(24) == SIZE_UNIT
  {
    Pow2Values();
    assert Pow(2, 7) == 128;
    PowAdd(2, 16, 7);
    PowAdd(2, 16, 8);
  }

  /** Whole bytes of a number of r bits. */
  lemma BytesOfBits(x: nat, r: nat)
    requires x < Pow2(r) && (r > 0 ==> Pow2(r - 1) <= x) && (r == 0 <==> x == 0)
    ensures (r + 7) / 8 == ByteLen(x)
  {
    var n := (r + 7) / 8;
    if x > 0 {
      PowersOf256(n);
      PowersOf256(n - 1);
      PowMonotone(2, r, 8 * n);
      PowMonotone(2, 8 * (n - 1), r - 1);
      ByteLenUnique(x, n);
    }
  }

  /** The fields take disjoint bits. */
  lemma Assemble(m: nat, size: nat)
    requires m < SIGN_BIT
    ensures BitOr(m, size * Pow2(24)) == m + size * SIZE_UNIT
    ensures (m + size * SIZE_UNIT) % SIGN_BIT == m
    ensures BitOr(m + size * SIZE_UNIT, SIGN_BIT) == m + size * SIZE_UNIT + SIGN_BIT
  {
    Pow2Of23();
    BitOrDisjoint(m, size, 24);
    Fields(m, size, false);
    BitOrClear(m + size * SIZE_UNIT, 23);
  }

  /** The parts are in range, and the leading bytes set the sign bit exactly when they are moved down. */
  lemma SplitInRange(x: nat, top: nat)
    requires x < TWO_256
    requires top == if ByteLen(x) <= 3 then x * Pow2(8 * (3 - ByteLen(x))) else x / Pow2(8 * (ByteLen(x) - 3))
    requires top < SIZE_UNIT
    ensures Split(x) == if TestBit(top, 23) then Parts(top / 256, ByteLen(x) + 1) else Parts(top, ByteLen(x))
    ensures Split(x).mantissa < SIGN_BIT && Split(x).size <= 33
  {
    HighBit(top);
    ByteLenAtMost32(x);
  }

  method GetCompact(t: Uint256, fNegative: bool) returns (nCompact: nat)
    requires t.Valid()
    ensures nCompact == Encode(t.Value(), fNegative) < BASE
  {
    var nSize;
    nCompact, nSize := GetParts(t);
    nCompact := PackBits(nCompact, nSize, fNegative);
  }

  method GetParts(t: Uint256) returns (m: nat, nSize: nat)
    requires t.Valid()
    ensures Parts(m, nSize) == Split(t.Value()) && m < SIGN_BIT && nSize <= 33
  {
    var bits := t.Bits();
    BytesOfBits(t.Value(), bits);
    nSize := (bits + 7) / 8;
    m := TopBytes(t, nSize);
    SplitInRange(t.Value(), m);
    if TestBit(m, 23) {
      m := m / 256;
      nSize := nSize + 1;
    }
  }

  method PackBits(m: nat, nSize: nat, fNegative: bool) returns (nCompact: nat)
    requires m < SIGN_BIT && nSize < 256
    ensures nCompact == Pack(Parts(m, nSize), fNegative) < BASE
  {
    hide BitOr, Pow2;
    Assemble(m, nSize);
    nCompact := BitOr(m, nSize * Pow2(24));
    if fNegative && nCompact % SIGN_BIT != 0 {
      nCompact := BitOr(nCompact, SIGN_BIT);
    }
  }

  /** The three leading bytes, filled up with zeros below. */
  method TopBytes(t: Uint256, nSize: nat) returns (m: nat)
    requires t.Valid() && nSize == ByteLen(t.Value())
    ensures m == if nSize <= 3 then t.Value() * Pow2(8 * (3 - nSize)) else t.Value() / Pow2(8 * (nSize - 3))
    ensures m < SIZE_UNIT
  {
    ghost var x := t.Value();
    if x > 0 {
      FullMantissa(x);
    }
    if nSize <= 3 {
      ByteLenBounds(x);
      SmallPowers();
      DivUnique(x, TWO_64, 0, x);
      m := t.GetLow64();
      m := m * Pow2(8 * (3 - nSize));
    } else {
      var bn := new Uint256.Copy(t);
      bn.ShiftRight(8 * (nSize - 3));
      DivUnique(bn.Value(), TWO_64, 0, bn.Value());
      m := bn.GetLow64();
    }
  }

  lemma HighBit(m: nat)
    requires m < SIZE_UNIT
    ensures TestBit(m, 23) <==> m >= SIGN_BIT
  {
    Pow2Of23();
  }

  // ---------------------------------------------------------------- the work of a block

  /** Expected number of hashes to meet the target: 2^256 divided by one more than the target. */
  ghost function BlockProof(nBits: nat): int {
    var d := Decode(nBits);
    if d.negative || d.overflow || d.value == 0 then 0 else TWO_256 / (d.value + 1)
  }

  /** A target never is 2^256 - 1, so adding one does not wrap to zero. */
  lemma TargetBelowMax(nBits: nat)
    requires !Decode(nBits).overflow
    ensures Decode(nBits).value + 1 < TWO_256
  {
    OverflowIsExact(nBits);
    var size, word := SizeOf(nBits), MantissaOf(nBits);
    if size <= 3 {
      QuotientBounds(word, Pow(256, 3 - size));
      ProductMonotone(1, Pow(256, 3 - size), word / Pow(256, 3 - size));
      MulComm(Pow(256, 3 - size), word / Pow(256, 3 - size));
    } else {
      var f := Pow(256, size - 4);
      MulComm(256, f);
      MulAssoc(word, f, 256);
      DivUnique(Exact(nBits), 256, word * f, 0);
    }
  }

  /** Why the complement is divided: 2^256 itself needs 257 bits. */
  lemma ComplementQuotient(t: nat)
    requires 0 < t && t + 1 < TWO_256
    ensures (TWO_256 - 1 - t) / (t + 1) + 1 == TWO_256 / (t + 1) < TWO_256
  {
    DivModAddMultiple(TWO_256 - 1 - t, 1, t + 1);
    DivBelow(TWO_256, t + 1, TWO_256);
  }

  method GetBlockProof(nBits: Limb) returns (work: Uint256)
    ensures work.Valid() && fresh(work) && fresh(work.pn) && work.Value() == BlockProof(nBits)
  {
    hide Decode, Pow2;
    var bnTarget := new Uint256();
    var fNegative, fOverflow := SetCompact(bnTarget, nBits);
    var zero := new Uint256();
    var order := bnTarget.CompareTo(zero);
    if fNegative || fOverflow || order == 0 {
      work := zero;
    } else {
      TargetBelowMax(nBits);
      ghost var t := bnTarget.Value();
      ComplementQuotient(t);
      work := bnTarget.Not();
      DivUnique(t + 1, TWO_256, 0, t + 1);
      bnTarget.Increment();
      var threw := work.Div(bnTarget);
      DivUnique(TWO_256 / (t + 1), TWO_256, 0, TWO_256 / (t + 1));
      work.Increment();
    }
  }

  /** A lower target never stands for less work. */
  lemma HarderIsMoreWork(a: nat, b: nat)
    requires var d, e := Decode(a), Decode(b);
             !d.negative && !d.overflow && !e.negative && !e.overflow && 0 < d.value <= e.value
    ensures BlockProof(a) >= BlockProof(b) > 0
  {
    hide Decode;
    var d, e := Decode(a).value + 1, Decode(b).value + 1;
    TargetBelowMax(b);
    QuotientAntitone(TWO_256, d, e);
  }

  lemma QuotientAntitone(n: nat, d: nat, e: nat)
    requires 0 < d <= e <= n
    ensures n / d >= n / e > 0
  {
    var p, q := n / d, n / e;
    QuotientBounds(n, d);
    QuotientBounds(n, e);
    LargerQuotient(n, d, e, p, q);
  }

  lemma LargerQuotient(n: nat, d: nat, e: nat, p: nat, q: nat)
    requires 0 < d <= e <= n && n < p * d + d && q * e <= n < q * e + e
    ensures p >= q > 0
  {
    if p < q {
      ProductMonotone(p + 1, q, d);
      MulAdd(p, 1, d);
      MulComm(q, d);
      MulComm(q, e);
      ProductMonotone(d, e, q);
    }
  }
}
