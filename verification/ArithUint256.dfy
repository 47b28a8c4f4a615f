/**
The 256-bit unsigned integers of src/arith_uint256.cpp and src/arith_uint256.h: eight 32-bit
limbs, lowest first, updated in place by carry, shift and subtract loops.

The reference is the number the limbs denote, `Value`; every operation is specified by what it
does to that number, modulo 2^256.  Intermediate 64-bit sums are shown not to overflow.
*/
module ArithUint256 {
  import opened Numbers

  const WIDTH := 8
  const BASE := 0x1_0000_0000

  type Limb = x: nat | x < BASE

  // ---------------------------------------------------------------- the number the limbs denote

  function BPow(i: nat): (p: nat)
    ensures p > 0
  {
    Pow(BASE, i)
  }

  ghost function Val(limbs: seq<Limb>): nat {
    if limbs == [] then 0 else Val(limbs[..|limbs| - 1]) + limbs[|limbs| - 1] * BPow(|limbs| - 1)
  }

  lemma {:induction false} ValBound(limbs: seq<Limb>)
    ensures Val(limbs) < BPow(|limbs|)
    decreases |limbs|
  {
    if limbs != [] {
      var n := |limbs| - 1;
      ValBound(limbs[..n]);
      var last: nat := limbs[n];
      ProductMonotone(last + 1, BASE, BPow(n));
      assert (last + 1) * BPow(n) == last * BPow(n) + BPow(n);
    }
  }

  lemma ValNext(limbs: seq<Limb>, i: nat)
    requires i < |limbs|
    ensures Val(limbs[..i + 1]) == Val(limbs[..i]) + limbs[i] * BPow(i)
  {
    assert limbs[..i + 1][..i] == limbs[..i];
  }

  lemma {:induction false} ValUpdate(limbs: seq<Limb>, j: nat, x: Limb)
    requires j < |limbs|
    ensures Val(limbs[j := x]) + limbs[j] * BPow(j) == Val(limbs) + x * BPow(j)
    decreases |limbs|
  {
    var n := |limbs| - 1;
    if j < n {
      assert limbs[j := x][..n] == limbs[..n][j := x];
      ValUpdate(limbs[..n], j, x);
    } else {
      assert limbs[j := x][..n] == limbs[..n];
    }
  }

  lemma {:induction false} ValZero(limbs: seq<Limb>)
    requires forall i | 0 <= i < |limbs| :: limbs[i] == 0
    ensures Val(limbs) == 0
    decreases |limbs|
  {
    if limbs != [] {
      ValZero(limbs[..|limbs| - 1]);
    }
  }

  lemma BPowWidth()
    ensures BPow(WIDTH) == TWO_256
  {
    assert BPow(1) == 0x1_0000_0000;
    assert BPow(2) == BASE * BPow(1);
    assert BPow(4) == BASE * BPow(3) && BPow(3) == BASE * BPow(2);
    assert BPow(6) == BASE * BPow(5) && BPow(5) == BASE * BPow(4);
    assert BPow(8) == BASE * BPow(7) && BPow(7) == BASE * BPow(6);
  }

  /** One step of a carry loop: the low half stays, the high half is carried. */
  lemma CarryStep(n: nat, p: nat)
    ensures (n % BASE) * p + (n / BASE) * (BASE * p) == n * p
  {
    assert n == (n / BASE) * BASE + n % BASE;
    assert ((n / BASE) * BASE + n % BASE) * p == (n / BASE) * (BASE * p) + (n % BASE) * p;
  }

  /** What is carried out of the last limb is lost modulo 2^256. */
  lemma DropCarry(low: nat, carry: nat, total: nat)
    requires low + carry * BPow(WIDTH) == total && low < BPow(WIDTH)
    ensures low == total % TWO_256
  {
    BPowWidth();
    DivUnique(total, TWO_256, carry, low);
  }

  class Uint256 {
    const pn: array<Limb>

    ghost predicate Valid() {
      pn.Length == WIDTH
    }

    ghost function Value(): (v: nat)
      requires Valid()
      reads pn
      ensures v < TWO_256
    {
      ValBound(pn[..]);
      BPowWidth();
      Val(pn[..])
    }

    constructor ()
      ensures Valid() && fresh(pn) && Value() == 0
    {
      pn := new Limb[WIDTH](_ => 0);
      new;
      ValZero(pn[..]);
    }

    constructor Copy(b: Uint256)
      requires b.Valid()
      ensures Valid() && fresh(pn) && pn[..] == b.pn[..] && Value() == b.Value()
    {
      pn := new Limb[WIDTH];
      new;
      for i := 0 to WIDTH
        invariant pn[..i] == b.pn[..i]
      {
        pn[i] := b.pn[i];
      }
      assert pn[..WIDTH] == pn[..] && b.pn[..WIDTH] == b.pn[..];
    }

    /** Assignment of a 64-bit number. */
    method Set(b: nat)
      requires Valid() && b < TWO_64
      modifies pn
      ensures Value() == b
    {
      pn[0] := b % BASE;
      pn[1] := b / BASE;
      for i := 2 to WIDTH
        invariant pn[0] == b % BASE && pn[1] == b / BASE
        invariant forall j | 2 <= j < i :: pn[j] == 0
      {
        pn[i] := 0;
      }
      ValLow(pn[..]);
    }

    method Assign(b: Uint256)
      requires Valid() && b.Valid()
      modifies pn
      ensures pn[..] == old(b.pn[..]) && Value() == old(b.Value())
    {
      for i := 0 to WIDTH
        invariant pn[..i] == old(b.pn[..i])
        invariant b.pn[..] == old(b.pn[..]) || b.pn == pn
        invariant forall j | i <= j < WIDTH :: b.pn[j] == old(b.pn[j])
      {
        pn[i] := b.pn[i];
      }
      assert pn[..] == pn[..WIDTH] && old(b.pn[..]) == old(b.pn[..WIDTH]);
    }

    /** Addition modulo 2^256; the operand may be this very number. */
    method Add(b: Uint256)
      requires Valid() && b.Valid()
      modifies pn
      ensures Value() == (old(Value()) + old(b.Value())) % TWO_256
    {
      ghost var x, y := pn[..], b.pn[..];
      var carry: nat := 0;
      for i := 0 to WIDTH
        invariant forall j | i <= j < WIDTH :: pn[j] == x[j] && b.pn[j] == y[j]
        invariant carry <= 1
        invariant Val(pn[..i]) + carry * BPow(i) == Val(x[..i]) + Val(y[..i])
      {
        var n := carry + pn[i] + b.pn[i];
        assert n < TWO_64;
        AddStep(pn[..i], x, y, i, carry, n);
        pn[i] := n % BASE;
        carry := n / BASE;
        assert pn[..i + 1] == pn[..i] + [n % BASE];
      }
      assert x[..WIDTH] == x && y[..WIDTH] == y && pn[..WIDTH] == pn[..];
      ValBound(pn[..]);
      DropCarry(Val(pn[..]), carry, Val(x) + Val(y));
    }

    /** Bitwise complement. */
    method Not() returns (r: Uint256)
      requires Valid()
      ensures r.Valid() && fresh(r) && fresh(r.pn) && r.Value() == TWO_256 - 1 - Value()
    {
      r := new Uint256();
      for i := 0 to WIDTH
        invariant pn[..] == old(pn[..])
        invariant Val(r.pn[..i]) + Val(pn[..i]) == BPow(i) - 1
      {
        r.pn[i] := BASE - 1 - pn[i];
        ValNext(pn[..], i);
        ValNext(r.pn[..], i);
        assert pn[..][..i] == pn[..i] && pn[..][..i + 1] == pn[..i + 1];
        assert r.pn[..][..i] == r.pn[..i] && r.pn[..][..i + 1] == r.pn[..i + 1];
        MulAdd(BASE - 1 - pn[i], pn[i], BPow(i));
        MulAdd(BASE - 1, 1, BPow(i));
      }
      assert r.pn[..WIDTH] == r.pn[..] && pn[..WIDTH] == pn[..];
      BPowWidth();
    }

    method Increment()
      requires Valid()
      modifies pn
      ensures Value() == (old(Value()) + 1) % TWO_256
    {
      ghost var x := pn[..];
      var i := 0;
      var carrying := true;
      while i < WIDTH && carrying
        invariant 0 <= i <= WIDTH
        invariant carrying ==> (forall j | 0 <= j < i :: pn[j] == 0) && (forall j | i <= j < WIDTH :: pn[j] == x[j])
        invariant carrying ==> Val(x[..i]) == BPow(i) - 1
        invariant !carrying ==> Val(pn[..]) == Val(x) + 1
        decreases WIDTH - i, carrying
      {
        ghost var p := pn[..];
        pn[i] := if pn[i] == BASE - 1 then 0 else pn[i] + 1;
        if pn[i] == 0 {
          ValNext(x, i);
          MulAdd(BASE - 1, 1, BPow(i));
          i := i + 1;
        } else {
          IncrementStop(x, p, i);
          assert pn[..] == p[i := x[i] + 1];
          carrying := false;
        }
      }
      BPowWidth();
      ValBound(pn[..]);
      if carrying {
        assert x[..WIDTH] == x;
        ValZero(pn[..]);
        DivUnique(Val(x) + 1, TWO_256, 1, 0);
      } else {
        DivUnique(Val(x) + 1, TWO_256, 0, Val(pn[..]));
      }
    }

    method Decrement()
      requires Valid()
      modifies pn
      ensures Value() == (old(Value()) + TWO_256 - 1) % TWO_256
    {
      ghost var x := pn[..];
      var i := 0;
      var borrowing := true;
      while i < WIDTH && borrowing
        invariant 0 <= i <= WIDTH
        invariant borrowing ==> (forall j | 0 <= j < i :: x[j] == 0) && (forall j | i <= j < WIDTH :: pn[j] == x[j])
        invariant borrowing ==> Val(pn[..i]) == BPow(i) - 1
        invariant !borrowing ==> Val(pn[..]) + 1 == Val(x)
        decreases WIDTH - i, borrowing
      {
        ghost var p := pn[..];
        pn[i] := if pn[i] == 0 then BASE - 1 else pn[i] - 1;
        if pn[i] == BASE - 1 {
          assert x[i] == 0;
          ValNext(pn[..], i);
          assert pn[..][..i] == p[..i] && pn[..][..i + 1] == pn[..i + 1];
          MulAdd(BASE - 1, 1, BPow(i));
          i := i + 1;
        } else {
          DecrementStop(x, p, i);
          assert pn[..] == p[i := x[i] - 1];
          borrowing := false;
        }
      }
      BPowWidth();
      ValBound(pn[..]);
      ValBound(x);
      if borrowing {
        assert pn[..WIDTH] == pn[..];
        ValZero(x);
      } else {
        DivUnique(Val(pn[..]) + TWO_256, TWO_256, 1, Val(pn[..]));
      }
    }

    /** Two's complement. */
    method Negate() returns (r: Uint256)
      requires Valid()
      ensures r.Valid() && fresh(r) && fresh(r.pn) && r.Value() == (TWO_256 - Value()) % TWO_256
    {
      r := Not();
      r.Increment();
    }

    /** Subtraction modulo 2^256: adding the two's complement. */
    method Sub(b: Uint256)
      requires Valid() && b.Valid()
      modifies pn
      ensures Value() == (old(Value()) + TWO_256 - old(b.Value())) % TWO_256
      ensures old(b.Value()) <= old(Value()) ==> Value() == old(Value()) - old(b.Value())
    {
      hide Val;
      var minus := b.Negate();
      ghost var x, y := Value(), b.Value();
      SubtractByComplement(x, y);
      Add(minus);
    }

    method Clear()
      requires Valid()
      modifies pn
      ensures forall j | 0 <= j < WIDTH :: pn[j] == 0
    {
      for i := 0 to WIDTH
        invariant forall j | 0 <= j < i :: pn[j] == 0
      {
        pn[i] := 0;
      }
    }

    /** Left shift by any distance: multiplication by a power of two modulo 2^256. */
    method ShiftLeft(shift: nat)
      requires Valid()
      modifies pn
      ensures Value() == (old(Value()) * Pow2(shift)) % TWO_256
    {
      ghost var x := pn[..];
      var a := new Uint256.Copy(this);
      Clear();
      ValZero(pn[..]);
      var k, s := shift / 32, shift % 32;
      ghost var lost: nat := 0;
      for i := 0 to WIDTH
        invariant a.pn[..] == x && ShiftLeftInv(pn[..], x, i, k, s, lost)
      {
        ghost var p := pn[..];
        ghost var lost1 := ShiftLeftStep(p, x, i, k, s, lost);
        if i + k + 1 < WIDTH && s != 0 {
          pn[i + k + 1] := Or(pn[i + k + 1], Shr(a.pn[i], 32 - s));
        }
        if i + k < WIDTH {
          pn[i + k] := Or(pn[i + k], Shl(a.pn[i], s));
        }
        assert pn[..] == ShiftLeftLimb(p, x[i], i, k, s);
        lost := lost1;
      }
      assert x[..WIDTH] == x;
      ShiftFactorIsPow2(shift);
      ValBound(pn[..]);
      DropCarry(Val(pn[..]), lost, Val(x) * Pow2(shift));
    }

    /** Right shift by any distance: division by a power of two. */
    method ShiftRight(shift: nat)
      requires Valid()
      modifies pn
      ensures Value() == old(Value()) / Pow2(shift)
    {
      ghost var x := pn[..];
      var a := new Uint256.Copy(this);
      Clear();
      ValZero(pn[..]);
      var k, s := shift / 32, shift % 32;
      ghost var rem: nat := 0;
      for i := 0 to WIDTH
        invariant a.pn[..] == x && ShiftRightInv(pn[..], x, i, k, s, rem)
      {
        ghost var p := pn[..];
        ghost var rem1 := ShiftRightStep(p, x, i, k, s, rem);
        if i - k - 1 >= 0 && s != 0 {
          pn[i - k - 1] := Or(pn[i - k - 1], Shl(a.pn[i], 32 - s));
        }
        if i - k >= 0 {
          pn[i - k] := Or(pn[i - k], Shr(a.pn[i], s));
        }
        assert pn[..] == ShiftRightLimb(p, x[i], i, k, s);
        rem := rem1;
      }
      assert x[..WIDTH] == x;
      ShiftFactorIsPow2(shift);
      DivUnique(Val(x), Pow2(shift), Val(pn[..]), rem);
    }

    method MulSmall(b: Limb)
      requires Valid()
      modifies pn
      ensures Value() == (old(Value()) * b) % TWO_256
    {
      ghost var x := pn[..];
      var carry: nat := 0;
      for i := 0 to WIDTH
        invariant forall j | i <= j < WIDTH :: pn[j] == x[j]
        invariant carry < BASE
        invariant Val(pn[..i]) + carry * BPow(i) == Val(x[..i]) * b
      {
        var n := Term(carry, 0, b, pn[i]);
        ProductFits(carry, 0, b, pn[i]);
        assert n < TWO_64;
        MulSmallStep(pn[..i], x, i, b, carry, n);
        pn[i] := n % BASE;
        carry := n / BASE;
        assert pn[..i + 1] == pn[..i] + [n % BASE];
      }
      assert x[..WIDTH] == x && pn[..WIDTH] == pn[..];
      ValBound(pn[..]);
      DropCarry(Val(pn[..]), carry, Val(x) * b);
    }

    /** Schoolbook multiplication modulo 2^256; the operand may be this very number. */
    method Mul(b: Uint256)
      requires Valid() && b.Valid()
      modifies pn
      ensures Value() == (old(Value()) * old(b.Value())) % TWO_256
    {
      var a := new Uint256();
      ghost var x, y := pn[..], b.pn[..];
      ghost var lost: nat := 0;
      for j := 0 to WIDTH
        invariant pn[..] == x && b.pn[..] == y
        invariant Val(a.pn[..]) + lost * BPow(WIDTH) == Val(x[..j]) * Val(y)
      {
        ghost var a0 := a.pn[..];
        ghost var carry := a.MulRow(pn[j], b, j);
        ghost var more := RowDone(a.pn[..], a0, y, x[j], j, carry);
        NextRow(x, j, Val(y));
        MulAdd(lost, more, BPow(WIDTH));
        lost := lost + more;
      }
      assert x[..WIDTH] == x;
      Assign(a);
      ValBound(pn[..]);
      DropCarry(Val(pn[..]), lost, Val(x) * Val(y));
    }

    /** The inner loop of the multiplication. */
    method MulRow(xj: Limb, b: Uint256, j: nat) returns (carry: nat)
      requires Valid() && b.Valid() && b.pn != pn && j < WIDTH
      modifies pn
      ensures RowInv(pn[..], old(pn[..]), b.pn[..], xj, j, WIDTH - j, carry)
    {
      ghost var a0, y := pn[..], b.pn[..];
      carry := 0;
      var i := 0;
      RowStart(a0, y, xj, j);
      while i + j < WIDTH
        invariant 0 <= i && i + j <= WIDTH && carry < BASE
        invariant b.pn[..] == y && RowInv(pn[..], a0, y, xj, j, i, carry)
      {
        var n := Term(carry, pn[i + j], xj, b.pn[i]);
        ProductFits(carry, pn[i + j], xj, b.pn[i]);
        assert n < TWO_64;
        RowStep(pn[..], a0, y, xj, j, i, carry, n);
        ghost var p := pn[..];
        var low: Limb := n % BASE;
        pn[i + j] := low;
        assert pn[..] == p[i + j := low];
        carry := n / BASE;
        i := i + 1;
      }
    }

    /** The sign of the comparison. */
    method CompareTo(b: Uint256) returns (r: int)
      requires Valid() && b.Valid()
      ensures r == if Value() < b.Value() then -1 else if Value() > b.Value() then 1 else 0
    {
      var i := WIDTH - 1;
      while i >= 0
        invariant -1 <= i < WIDTH
        invariant forall j | i < j < WIDTH :: pn[j] == b.pn[j]
      {
        if pn[i] < b.pn[i] {
          CompareAt(pn[..], b.pn[..], i);
          return -1;
        }
        if pn[i] > b.pn[i] {
          CompareAt(b.pn[..], pn[..], i);
          return 1;
        }
        i := i - 1;
      }
      assert pn[..] == b.pn[..];
      return 0;
    }

    /** Number of significant bits. */
    method Bits() returns (r: nat)
      requires Valid()
      ensures r <= 256 && (r == 0 <==> Value() == 0)
      ensures Value() < Pow2(r) && (r > 0 ==> Pow2(r - 1) <= Value())
    {
      var pos := WIDTH - 1;
      while pos >= 0
        invariant -1 <= pos < WIDTH
        invariant forall j | pos < j < WIDTH :: pn[j] == 0
      {
        if pn[pos] != 0 {
          var nbits := 31;
          Pow2Values();
          while nbits > 0
            invariant 0 <= nbits <= 31 && pn[pos] < Pow2(nbits + 1)
          {
            TopBit(pn[pos], nbits);
            if TestBit(pn[pos], nbits) {
              BitLength(pn[..], pos, nbits + 1);
              return 32 * pos + nbits + 1;
            }
            nbits := nbits - 1;
          }
          assert Pow2(0) == 1 && Pow2(1) == 2;
          BitLength(pn[..], pos, 1);
          return 32 * pos + 1;
        }
        pos := pos - 1;
      }
      ValZero(pn[..]);
      return 0;
    }

    /** Shift-and-subtract division: the floor of the quotient, or a throw on zero. */
    method Div(b: Uint256) returns (threw: bool)
      requires Valid() && b.Valid()
      modifies pn
      ensures threw <==> old(b.Value()) == 0
      ensures Value() == if threw then 0 else old(Value()) / old(b.Value())
    {
      ghost var n, d := Value(), b.Value();
      var div := new Uint256.Copy(b);
      var num := new Uint256.Copy(this);
      Clear();
      ValZero(pn[..]);
      var numBits := num.Bits();
      var divBits := div.Bits();
      if divBits == 0 {
        return true;
      }
      if divBits > numBits {
        PowMonotone(2, numBits, divBits - 1);
        DivUnique(n, d, 0, n);
        return false;
      }
      DivisionStarts(n, d, numBits, divBits);
      assert pn[..] == seq(WIDTH, _ => 0);
      div.ShiftLeft(numBits - divBits);
      DivLoop(num, div, numBits - divBits, n, d);
      return false;
    }

    /** The loop over the bits of the quotient. */
    method DivLoop(num: Uint256, div: Uint256, start: nat, ghost n: nat, ghost d: nat)
      requires Valid() && num.Valid() && div.Valid() && pn != num.pn && pn != div.pn && num.pn != div.pn
      requires start < 256 && d > 0 && DivInv(Value(), num.Value(), div.Value(), start, n, d) && QuotientClear(pn[..], start)
      modifies pn, num.pn, div.pn
      ensures Value() == n / d
    {
      var shift: int := start;
      while shift >= 0
        invariant -1 <= shift < 256
        invariant DivInv(Value(), num.Value(), div.Value(), shift, n, d) && QuotientClear(pn[..], shift)
      {
        DivStep(num, div, shift, n, d);
        shift := shift - 1;
      }
      DivisionEnds(Value(), num.Value(), div.Value(), n, d);
    }

    /** One bit of the quotient. */
    method DivStep(num: Uint256, div: Uint256, shift: nat, ghost n: nat, ghost d: nat)
      requires Valid() && num.Valid() && div.Valid() && pn != num.pn && pn != div.pn && num.pn != div.pn
      requires shift < 256 && DivInv(Value(), num.Value(), div.Value(), shift, n, d) && QuotientClear(pn[..], shift)
      modifies pn, num.pn, div.pn
      ensures DivInv(Value(), num.Value(), div.Value(), shift - 1, n, d) && QuotientClear(pn[..], shift - 1)
    {
      ghost var p := pn[..];
      SetQuotientBit(p, shift);
      SubtractDivisor(Value(), d, shift);
      HalveDivisor(d, shift);
      var cmp := num.CompareTo(div);
      if cmp >= 0 {
        num.Sub(div);
        pn[shift / 32] := Or(pn[shift / 32], Pow2Limb(shift % 32));
        assert pn[..] == WithQuotientBit(p, shift);
      }
      div.ShiftRight(1);
    }

    method GetLow64() returns (r: nat)
      requires Valid()
      ensures r == Value() % TWO_64
    {
      r := pn[0] + pn[1] * BASE;
      var top := ValSplit(pn[..], 2);
      ValPair(pn[..]);
      assert BPow(1) == BASE && BPow(2) == BASE * BPow(1);
      DivUnique(Val(pn[..]), TWO_64, top, r);
    }
  }

  lemma SubtractByComplement(x: nat, y: nat)
    requires x < TWO_256 && y < TWO_256
    ensures (x + (TWO_256 - y) % TWO_256) % TWO_256 == (x + TWO_256 - y) % TWO_256
    ensures y <= x ==> (x + TWO_256 - y) % TWO_256 == x - y
  {
    if y == 0 {
      DivUnique(TWO_256, TWO_256, 1, 0);
      DivModAddMultiple(x, 1, TWO_256);
    } else {
      DivUnique(TWO_256 - y, TWO_256, 0, TWO_256 - y);
      if y <= x {
        DivUnique(x + TWO_256 - y, TWO_256, 1, x - y);
      }
    }
  }

  lemma RowStart(a: seq<Limb>, y: seq<Limb>, xj: Limb, j: nat)
    requires |a| == |y| == WIDTH && j <= WIDTH
    ensures RowInv(a, a, y, xj, j, 0, 0)
  {
    assert Val(y[..0]) == 0;
    assert xj * 0 * BPow(j) == 0;
  }

  lemma IncrementStop(x: seq<Limb>, p: seq<Limb>, i: nat)
    requires |x| == |p| == WIDTH && i < WIDTH && x[i] + 1 < BASE
    requires (forall j | 0 <= j < i :: p[j] == 0) && (forall j | i <= j < WIDTH :: p[j] == x[j]) && Val(x[..i]) == BPow(i) - 1
    ensures Val(p[i := x[i] + 1]) == Val(x) + 1
  {
    ValUpdate(p, i, x[i] + 1);
    MulAdd(x[i], 1, BPow(i));
    ValZero(p[..i]);
    SameTop(x, p, i);
  }

  lemma DecrementStop(x: seq<Limb>, p: seq<Limb>, i: nat)
    requires |x| == |p| == WIDTH && i < WIDTH && x[i] > 0
    requires (forall j | 0 <= j < i :: x[j] == 0) && (forall j | i <= j < WIDTH :: p[j] == x[j]) && Val(p[..i]) == BPow(i) - 1
    ensures Val(p[i := x[i] - 1]) + 1 == Val(x)
  {
    ValUpdate(p, i, x[i] - 1);
    MulAdd(x[i] - 1, 1, BPow(i));
    ValZero(x[..i]);
    SameTop(x, p, i);
  }

  /** Limb sequences that agree from i on differ by what lies below i. */
  lemma {:induction false} SameTop(x: seq<Limb>, p: seq<Limb>, i: nat)
    requires |x| == |p| && i <= |x| && forall j | i <= j < |x| :: p[j] == x[j]
    ensures Val(x) - Val(x[..i]) == Val(p) - Val(p[..i])
    decreases |x|
  {
    if i < |x| {
      hide Val, BPow;
      var n := |x| - 1;
      SameTop(x[..n], p[..n], i);
      assert x[..n][..i] == x[..i] && p[..n][..i] == p[..i];
      ValNext(x, n);
      ValNext(p, n);
      assert x[..n + 1] == x && p[..n + 1] == p;
    } else {
      assert x[..i] == x && p[..i] == p;
    }
  }

  lemma CompareAt(x: seq<Limb>, y: seq<Limb>, i: nat)
    requires |x| == |y| && i < |x| && x[i] < y[i] && forall j | i < j < |x| :: x[j] == y[j]
    ensures Val(x) < Val(y)
  {
    SameTop(x, y, i + 1);
    ValNext(x, i);
    ValNext(y, i);
    ValBound(x[..i]);
    var d: nat := x[i];
    ProductMonotone(d + 1, y[i], BPow(i));
    MulAdd(d, 1, BPow(i));
  }

  lemma TopBit(v: nat, k: nat)
    requires v < Pow2(k + 1)
    ensures TestBit(v, k) <==> v >= Pow2(k)
  {
    if v >= Pow2(k) {
      DivUnique(v, Pow2(k), 1, v - Pow2(k));
    } else {
      DivUnique(v, Pow2(k), 0, v);
    }
  }

  /** The bit length of the top limb gives the bit length of the number. */
  lemma BitLength(x: seq<Limb>, pos: nat, n: nat)
    requires |x| == WIDTH && pos < WIDTH && n > 0 && forall j | pos < j < WIDTH :: x[j] == 0
    requires Pow2(n - 1) <= x[pos] < Pow2(n)
    ensures Pow2(32 * pos + n - 1) <= Val(x) < Pow2(32 * pos + n)
  {
    var b := BPow(pos);
    Pow2Values();
    PowMul(2, 32, pos);
    PowAdd(2, 32 * pos, n - 1);
    PowAdd(2, 32 * pos, n);
    TopZero(x, pos + 1);
    ValNext(x, pos);
    ValBound(x[..pos]);
    var v: nat := x[pos];
    ProductMonotone(Pow2(n - 1), v, b);
    ProductMonotone(v + 1, Pow2(n), b);
    MulAdd(v, 1, b);
    MulComm(b, Pow2(n - 1));
    MulComm(b, Pow2(n));
  }

  lemma {:induction false} TopZero(x: seq<Limb>, i: nat)
    requires i <= |x| && forall j | i <= j < |x| :: x[j] == 0
    ensures Val(x) == Val(x[..i])
    decreases |x|
  {
    if i < |x| {
      TopZero(x[..|x| - 1], i);
      assert x[..|x| - 1][..i] == x[..i];
    } else {
      assert x[..i] == x;
    }
  }

  lemma ValLow(limbs: seq<Limb>)
    requires |limbs| == WIDTH && forall j | 2 <= j < WIDTH :: limbs[j] == 0
    ensures Val(limbs) == limbs[0] + BASE * limbs[1]
  {
    TopZero(limbs, 2);
    ValPair(limbs);
  }

  lemma ValPair(limbs: seq<Limb>)
    requires |limbs| >= 2
    ensures Val(limbs[..2]) == limbs[0] + BASE * limbs[1]
  {
    assert BPow(0) == 1 && BPow(1) == BASE;
    assert limbs[..0] == [];
    ValNext(limbs, 0);
    ValNext(limbs, 1);
  }

  lemma ValPush(low: seq<Limb>, x: Limb)
    ensures Val(low + [x]) == Val(low) + x * BPow(|low|)
  {
    assert (low + [x])[..|low|] == low;
  }

  lemma Distribute3(a: nat, b: nat, c: nat, p: nat)
    ensures (a + b + c) * p == a * p + b * p + c * p
  {
  }

  lemma AddStep(low: seq<Limb>, x: seq<Limb>, y: seq<Limb>, i: nat, carry: nat, n: nat)
    requires |low| == i < |x| == |y| && n == carry + x[i] + y[i]
    requires Val(low) + carry * BPow(i) == Val(x[..i]) + Val(y[..i])
    ensures Val(low + [n % BASE]) + (n / BASE) * BPow(i + 1) == Val(x[..i + 1]) + Val(y[..i + 1])
  {
    ValNext(x, i);
    ValNext(y, i);
    ValPush(low, n % BASE);
    CarryStep(n, BPow(i));
    Distribute3(carry, x[i], y[i], BPow(i));
  }

  // ---------------------------------------------------------------- shifts of one limb

  function Shl(x: Limb, s: nat): Limb {
    (x * Pow2(s)) % BASE
  }

  function Shr(x: Limb, s: nat): Limb {
    ShrBound(x, s);
    x / Pow2(s)
  }

  lemma ShrBound(x: Limb, s: nat)
    ensures x / Pow2(s) < BASE
  {
    QuotientBounds(x, Pow2(s));
    ProductMonotone(1, Pow2(s), x / Pow2(s));
    assert Pow2(s) * (x / Pow2(s)) == (x / Pow2(s)) * Pow2(s);
  }

  /** A limb times 2^s, split at the limb boundary: the high part has s bits, the low part
      has its s lowest bits clear. */
  lemma SplitShift(x: Limb, s: nat) returns (rest: nat)
    requires s <= 32
    ensures Shr(x, 32 - s) * BASE + Shl(x, s) == x * Pow2(s)
    ensures Shr(x, 32 - s) < Pow2(s)
    ensures Shl(x, s) == rest * Pow2(s) && Shl(x, s) + Pow2(s) <= BASE
  {
    var p, q := Pow2(s), Pow2(32 - s);
    Pow2Values();
    PowAdd(2, s, 32 - s);
    SplitProduct(x, p, q);
    rest := x % q;
    DivBelow(x, q, p);
  }

  // ---------------------------------------------------------------- left shift

  ghost function ShiftFactor(k: nat, s: nat): nat {
    Pow2(s) * BPow(k)
  }

  lemma ShiftFactorIsPow2(shift: nat)
    ensures ShiftFactor(shift / 32, shift % 32) == Pow2(shift)
  {
    var k, s := shift / 32, shift % 32;
    Pow2Values();
    PowMul(2, 32, k);
    PowAdd(2, s, 32 * k);
    assert s + 32 * k == shift;
  }

  /** The weight of limb i after the shift. */
  lemma ShiftedTerm(v: nat, i: nat, k: nat, s: nat)
    ensures v * BPow(i) * ShiftFactor(k, s) == v * Pow2(s) * BPow(i + k)
  {
    PowAdd(BASE, i, k);
    SwapFactors(v, BPow(i), Pow2(s), BPow(k));
  }

  ghost predicate ShiftLeftInv(p: seq<Limb>, x: seq<Limb>, i: nat, k: nat, s: nat, lost: nat)
    requires i <= |x|
  {
    && |p| == WIDTH
    && Val(p) + lost * BPow(WIDTH) == Val(x[..i]) * ShiftFactor(k, s)
    && (i + k < WIDTH ==> lost == 0 && p[i + k] < Pow2(s) && forall j | i + k < j < WIDTH :: p[j] == 0)
  }

  function Or(x: Limb, y: Limb): Limb {
    Pow2Values();
    BitOrBound(x, y, 32);
    BitOr(x, y)
  }

  /** The limbs after one iteration of the loop. */
  function ShiftLeftLimb(p: seq<Limb>, v: Limb, i: nat, k: nat, s: nat): (r: seq<Limb>)
    requires |p| == WIDTH && s < 32
    ensures |r| == WIDTH
  {
    var p1 := if i + k + 1 < WIDTH && s != 0 then p[i + k + 1 := Or(p[i + k + 1], Shr(v, 32 - s))] else p;
    if i + k < WIDTH then p1[i + k := Or(p1[i + k], Shl(v, s))] else p1
  }

  /** Writing a zero limb and adding to the limb below it. */
  lemma ValTwoUpdates(p: seq<Limb>, n: nat, hi: Limb, lo: nat)
    requires n + 1 < |p| && p[n + 1] == 0 && p[n] + lo < BASE
    ensures Val(p[n + 1 := hi][n := p[n] + lo]) == Val(p) + (hi * BASE + lo) * BPow(n)
  {
    var p1 := p[n + 1 := hi];
    ValUpdate(p, n + 1, hi);
    ValUpdate(p1, n, p[n] + lo);
    CarryTerm(hi, lo, BPow(n));
    MulAdd(p[n], lo, BPow(n));
  }

  lemma ShiftLeftLimbInside(p: seq<Limb>, v: Limb, i: nat, k: nat, s: nat)
    requires |p| == WIDTH && s < 32 && i + k + 1 < WIDTH && p[i + k] < Pow2(s) && p[i + k + 1] == 0
    ensures p[i + k] + Shl(v, s) < BASE && Shr(v, 32 - s) < Pow2(s)
    ensures ShiftLeftLimb(p, v, i, k, s) == p[i + k + 1 := Shr(v, 32 - s)][i + k := p[i + k] + Shl(v, s)]
  {
    var rest := SplitShift(v, s);
    BitOrDisjoint(p[i + k], rest, s);
    if s == 0 {
      assert p[i + k + 1 := 0] == p;
    }
  }

  /** Inside the width both halves of the limb land; nothing is lost. */
  lemma ShiftLeftInside(p: seq<Limb>, v: Limb, i: nat, k: nat, s: nat)
    requires |p| == WIDTH && s < 32 && i + k + 1 < WIDTH && p[i + k] < Pow2(s) && p[i + k + 1] == 0
    ensures var r := ShiftLeftLimb(p, v, i, k, s);
            && Val(r) == Val(p) + v * Pow2(s) * BPow(i + k)
            && r[i + k + 1] < Pow2(s)
            && forall j | i + k + 1 < j < WIDTH :: r[j] == p[j]
  {
    hide Val, Shl, Shr, ShiftLeftLimb, Pow2, BPow;
    ShiftLeftLimbInside(p, v, i, k, s);
    var _ := SplitShift(v, s);
    ValTwoUpdates(p, i + k, Shr(v, 32 - s), Shl(v, s));
  }

  lemma PowerOfSum(i: nat, j: nat)
    ensures BPow(i + j) == BPow(i) * BPow(j)
  {
    PowAdd(BASE, i, j);
  }

  lemma NextPower(n: nat)
    ensures BPow(n + 1) == BASE * BPow(n)
  {
  }

  lemma CarryTerm(hi: nat, lo: nat, p: nat)
    ensures hi * (BASE * p) + lo * p == (hi * BASE + lo) * p
  {
    MulAssoc(hi, BASE, p);
  }

  lemma ShiftLeftLimbTop(p: seq<Limb>, v: Limb, i: nat, k: nat, s: nat)
    requires |p| == WIDTH && s < 32 && i + k + 1 == WIDTH && p[i + k] < Pow2(s)
    ensures p[i + k] + Shl(v, s) < BASE && ShiftLeftLimb(p, v, i, k, s) == p[i + k := p[i + k] + Shl(v, s)]
  {
    var rest := SplitShift(v, s);
    BitOrDisjoint(p[i + k], rest, s);
  }

  /** At the top limb the high half is lost. */
  lemma ShiftLeftTop(p: seq<Limb>, v: Limb, i: nat, k: nat, s: nat)
    requires |p| == WIDTH && s < 32 && i + k + 1 == WIDTH && p[i + k] < Pow2(s)
    ensures Val(ShiftLeftLimb(p, v, i, k, s)) + Shr(v, 32 - s) * BPow(WIDTH) == Val(p) + v * Pow2(s) * BPow(i + k)
  {
    hide Val, Shl, Shr, ShiftLeftLimb, Pow2, BPow;
    NextPower(i + k);
    ShiftLeftLimbTop(p, v, i, k, s);
    ValAddTo(p, i + k, Shl(v, s));
    CarryTerm(Shr(v, 32 - s), Shl(v, s), BPow(i + k));
    var _ := SplitShift(v, s);
  }

  lemma ValAddTo(p: seq<Limb>, n: nat, lo: nat)
    requires n < |p| && p[n] + lo < BASE
    ensures Val(p[n := p[n] + lo]) == Val(p) + lo * BPow(n)
  {
    ValUpdate(p, n, p[n] + lo);
    MulAdd(p[n], lo, BPow(n));
  }

  /** Above the width everything is lost. */
  lemma ShiftLeftAbove(v: nat, s: nat, n: nat) returns (more: nat)
    requires n >= WIDTH
    ensures v * Pow2(s) * BPow(n) == more * BPow(WIDTH)
  {
    more := v * Pow2(s) * BPow(n - WIDTH);
    PowAdd(BASE, n - WIDTH, WIDTH);
    MulAssoc(v * Pow2(s), BPow(n - WIDTH), BPow(WIDTH));
  }

  /** What limb i adds to the shifted number. */
  lemma ShiftedPrefix(x: seq<Limb>, i: nat, k: nat, s: nat)
    requires i < |x|
    ensures Val(x[..i + 1]) * ShiftFactor(k, s) == Val(x[..i]) * ShiftFactor(k, s) + x[i] * Pow2(s) * BPow(i + k)
  {
    ValNext(x, i);
    ShiftedTerm(x[i], i, k, s);
    MulAdd(Val(x[..i]), x[i] * BPow(i), ShiftFactor(k, s));
  }

  lemma ShiftLeftStep(p: seq<Limb>, x: seq<Limb>, i: nat, k: nat, s: nat, lost: nat) returns (lost1: nat)
    requires |x| == WIDTH && i < WIDTH && s < 32 && ShiftLeftInv(p, x, i, k, s, lost)
    ensures ShiftLeftInv(ShiftLeftLimb(p, x[i], i, k, s), x, i + 1, k, s, lost1)
  {
    ShiftedPrefix(x, i, k, s);
    if i + k + 1 < WIDTH {
      ShiftLeftInside(p, x[i], i, k, s);
      lost1 := 0;
    } else if i + k + 1 == WIDTH {
      ShiftLeftTop(p, x[i], i, k, s);
      lost1 := Shr(x[i], 32 - s);
    } else {
      var more := ShiftLeftAbove(x[i], s, i + k);
      lost1 := lost + more;
      MulAdd(lost, more, BPow(WIDTH));
    }
  }

  // ---------------------------------------------------------------- right shift

  ghost predicate ShiftRightInv(p: seq<Limb>, x: seq<Limb>, i: nat, k: nat, s: nat, rem: nat)
    requires i <= |x| && s <= 32
  {
    && |p| == WIDTH
    && Val(x[..i]) == Val(p) * ShiftFactor(k, s) + rem && rem < ShiftFactor(k, s)
    && (forall j | 0 <= j < WIDTH && j >= i - k :: p[j] == 0)
    && (k < i <= k + WIDTH ==> p[i - k - 1] < Pow2(32 - s))
  }

  function ShiftRightLimb(p: seq<Limb>, v: Limb, i: nat, k: nat, s: nat): (r: seq<Limb>)
    requires |p| == WIDTH && s < 32 && i < WIDTH
    ensures |r| == WIDTH
  {
    var p1 := if i - k - 1 >= 0 && s != 0 then p[i - k - 1 := Or(p[i - k - 1], Shl(v, 32 - s))] else p;
    if i - k >= 0 then p1[i - k := Or(p1[i - k], Shr(v, s))] else p1
  }

  /** Below the shift distance everything goes into the remainder. */
  lemma ShiftRightBelow(p: seq<Limb>, x: seq<Limb>, i: nat, k: nat, s: nat, rem: nat)
    requires |x| == WIDTH && i < WIDTH && s < 32 && i < k && ShiftRightInv(p, x, i, k, s, rem)
    ensures ShiftRightInv(p, x, i + 1, k, s, Val(x[..i + 1]))
  {
    ValZero(p);
    ValBound(x[..i + 1]);
    PowMonotone(BASE, i + 1, k);
    ProductMonotone(1, Pow2(s), BPow(k));
  }

  lemma LowBitsRemain(v: nat, q: nat, r: nat, f: nat, b: nat, rem: nat) returns (rem1: nat)
    requires v == q * f + r && r < f && rem < b
    ensures rem + v * b == q * (f * b) + rem1 && rem1 < f * b
  {
    rem1 := rem + r * b;
    MulAdd(q * f, r, b);
    MulAssoc(q, f, b);
    ProductMonotone(r + 1, f, b);
    MulAdd(r, 1, b);
  }

  lemma ShiftRightLimbAt(p: seq<Limb>, v: Limb, i: nat, s: nat)
    requires |p| == WIDTH && s < 32 && i < WIDTH && forall j | 0 <= j < WIDTH :: p[j] == 0
    ensures ShiftRightLimb(p, v, i, i, s) == p[0 := Shr(v, s)] && Val(p) == 0 && Val(p[0 := Shr(v, s)]) == Shr(v, s)
    ensures Shr(v, s) < Pow2(32 - s)
  {
    ValZero(p);
    ValUpdate(p, 0, Shr(v, s));
    assert BPow(0) == 1;
    var _ := SplitShift(v, 32 - s);
  }

  /** The limb at the shift distance loses its low bits to the remainder. */
  lemma ShiftRightAt(p: seq<Limb>, x: seq<Limb>, i: nat, s: nat, rem: nat) returns (rem1: nat)
    requires |x| == WIDTH && i < WIDTH && s < 32 && ShiftRightInv(p, x, i, i, s, rem)
    ensures ShiftRightInv(ShiftRightLimb(p, x[i], i, i, s), x, i + 1, i, s, rem1)
  {
    var v: nat := x[i];
    ShiftRightLimbAt(p, v, i, s);
    QuotientBounds(v, Pow2(s));
    ValBound(x[..i]);
    ValNext(x, i);
    rem1 := LowBitsRemain(v, v / Pow2(s), v % Pow2(s), Pow2(s), BPow(i), rem);
  }

  lemma ShiftRightTerm(v: nat, n: nat, k: nat, s: nat)
    requires s <= 32
    ensures v * Pow2(32 - s) * BPow(n) * ShiftFactor(k, s) == v * BPow(n + k + 1)
  {
    Pow2Values();
    PowAdd(2, 32 - s, s);
    PowAdd(BASE, n, k);
    SwapFactors(v * Pow2(32 - s), BPow(n), Pow2(s), BPow(k));
    MulAssoc(v, Pow2(32 - s), Pow2(s));
    MulAssoc(v, BASE, BPow(n + k));
  }

  lemma ShiftRightLimbAbove(p: seq<Limb>, v: Limb, i: nat, k: nat, s: nat)
    requires |p| == WIDTH && s < 32 && k < i < WIDTH && p[i - k - 1] < Pow2(32 - s) && p[i - k] == 0
    ensures var n := i - k - 1;
            && p[n] + Shl(v, 32 - s) < BASE
            && ShiftRightLimb(p, v, i, k, s) == p[n + 1 := Shr(v, s)][n := p[n] + Shl(v, 32 - s)]
            && Shr(v, s) < Pow2(32 - s)
            && Shr(v, s) * BASE + Shl(v, 32 - s) == v * Pow2(32 - s)
  {
    var n := i - k - 1;
    var rest := SplitShift(v, 32 - s);
    BitOrDisjoint(p[n], rest, 32 - s);
    if s == 0 {
      Pow2Values();
      DivUnique(v * Pow2(32), BASE, v, 0);
    }
  }

  /** Above it both halves of the limb land exactly. */
  lemma ShiftRightAbove(p: seq<Limb>, x: seq<Limb>, i: nat, k: nat, s: nat, rem: nat)
    requires |x| == WIDTH && i < WIDTH && s < 32 && k < i && ShiftRightInv(p, x, i, k, s, rem)
    ensures ShiftRightInv(ShiftRightLimb(p, x[i], i, k, s), x, i + 1, k, s, rem)
  {
    hide Val, Shl, Shr, ShiftRightLimb, Pow2, BPow;
    var v, n := x[i], i - k - 1;
    ShiftRightLimbAbove(p, v, i, k, s);
    ValTwoUpdates(p, n, Shr(v, s), Shl(v, 32 - s));
    ValNext(x, i);
    ShiftRightTerm(v, n, k, s);
    AddMultiple(Val(p), Product3(v, Pow2(32 - s), BPow(n)), ShiftFactor(k, s), Val(x[..i]), rem);
  }

  ghost function Product3(a: nat, b: nat, c: nat): nat {
    a * b * c
  }

  lemma AddMultiple(q: nat, t: nat, f: nat, x: nat, rem: nat)
    requires x == q * f + rem
    ensures x + t * f == (q + t) * f + rem
  {
    MulAdd(q, t, f);
  }

  lemma ShiftRightStep(p: seq<Limb>, x: seq<Limb>, i: nat, k: nat, s: nat, rem: nat) returns (rem1: nat)
    requires |x| == WIDTH && i < WIDTH && s < 32 && ShiftRightInv(p, x, i, k, s, rem)
    ensures ShiftRightInv(ShiftRightLimb(p, x[i], i, k, s), x, i + 1, k, s, rem1)
  {
    if i < k {
      ShiftRightBelow(p, x, i, k, s, rem);
      rem1 := Val(x[..i + 1]);
    } else if i == k {
      rem1 := ShiftRightAt(p, x, i, s, rem);
    } else {
      ShiftRightAbove(p, x, i, k, s, rem);
      rem1 := rem;
    }
  }

  // ---------------------------------------------------------------- multiplication

  lemma MulSmallStep(low: seq<Limb>, x: seq<Limb>, i: nat, b: nat, carry: nat, n: nat)
    requires |low| == i < |x| && n == carry + b * x[i]
    requires Val(low) + carry * BPow(i) == Val(x[..i]) * b
    ensures Val(low + [n % BASE]) + (n / BASE) * BPow(i + 1) == Val(x[..i + 1]) * b
  {
    ValNext(x, i);
    ValPush(low, n % BASE);
    CarryStep(n, BPow(i));
    MulAdd(carry, b * x[i], BPow(i));
    MulAdd(Val(x[..i]), x[i] * BPow(i), b);
    MulComm(x[i] * BPow(i), b);
    MulAssoc(b, x[i], BPow(i));
  }

  /** The 64-bit intermediate of both multiplications. */
  function Term(carry: nat, a: nat, x: nat, y: nat): nat {
    carry + a + x * y
  }

  /** It cannot overflow, and neither can the next carry. */
  lemma ProductFits(carry: Limb, a: Limb, x: Limb, y: Limb)
    ensures Term(carry, a, x, y) < TWO_64 && Term(carry, a, x, y) / BASE < BASE
  {
    MulMono(x, BASE - 1, y, BASE - 1);
    DivBelow(Term(carry, a, x, y), BASE, BASE);
  }

  /** The inner loop of the multiplication: row j, up to column i. */
  ghost predicate RowInv(a: seq<Limb>, a0: seq<Limb>, y: seq<Limb>, xj: Limb, j: nat, i: nat, carry: nat)
    requires |y| == WIDTH && i + j <= WIDTH
  {
    && |a| == |a0| == WIDTH
    && a[i + j..] == a0[i + j..]
    && Val(a[..i + j]) + carry * BPow(i + j) == Val(a0[..i + j]) + xj * Val(y[..i]) * BPow(j)
  }

  lemma RowArith(low: nat, low0: nat, carry: nat, a: nat, xj: nat, v: nat, y: nat, p: nat, q: nat, n: nat)
    requires low + carry * (p * q) == low0 + xj * v * q && n == carry + a + xj * y
    ensures low + (n % BASE) * (p * q) + (n / BASE) * (BASE * (p * q)) == low0 + a * (p * q) + xj * (v + y * p) * q
  {
    CarryStep(n, p * q);
    Distribute3(carry, a, xj * y, p * q);
    RowTerm(xj, v, y, p, q);
  }

  lemma RowStep(a: seq<Limb>, a0: seq<Limb>, y: seq<Limb>, xj: Limb, j: nat, i: nat, carry: nat, n: nat)
    requires |y| == WIDTH && i + j < WIDTH && RowInv(a, a0, y, xj, j, i, carry)
    requires n == carry + a[i + j] + xj * y[i]
    ensures RowInv(a[i + j := n % BASE], a0, y, xj, j, i + 1, n / BASE)
  {
    hide Val, BPow;
    var m := i + j;
    NextPower(m);
    var a1 := a[m := n % BASE];
    assert a1[..m] == a[..m] && a1[m + 1..] == a[m..][1..] && a0[m + 1..] == a0[m..][1..];
    assert a[m] == a[m..][0] == a0[m..][0] == a0[m];
    ValNext(a1, m);
    ValNext(a0, m);
    ValNext(y, i);
    PowerOfSum(i, j);
    RowArith(Val(a[..m]), Val(a0[..m]), carry, a[m], xj, Val(y[..i]), y[i], BPow(i), BPow(j), n);
  }

  lemma RowTerm(x: nat, v: nat, y: nat, p: nat, q: nat)
    ensures x * (v + y * p) * q == x * v * q + x * y * (p * q)
  {
    MulAdd(v, y * p, x);
    MulComm(v + y * p, x);
    MulComm(v, x);
    MulComm(y * p, x);
    MulAdd(x * v, x * (y * p), q);
    MulAssoc(x, y, p);
    MulAssoc(x * y, p, q);
  }

  /** A finished row: what the truncated columns would add is a multiple of 2^256. */
  lemma RowDone(a: seq<Limb>, a0: seq<Limb>, y: seq<Limb>, xj: Limb, j: nat, carry: nat) returns (lost: nat)
    requires |y| == WIDTH && j < WIDTH && RowInv(a, a0, y, xj, j, WIDTH - j, carry)
    ensures Val(a) + lost * BPow(WIDTH) == Val(a0) + xj * BPow(j) * Val(y)
  {
    var c := WIDTH - j;
    var top := ValSplit(y, c);
    assert a[..WIDTH] == a && a0[..WIDTH] == a0;
    PowAdd(BASE, c, j);
    lost := RowTotal(Val(a), Val(a0), carry, xj, Val(y[..c]), top, BPow(c), BPow(j));
  }

  lemma RowTotal(a: nat, a0: nat, carry: nat, x: nat, v: nat, top: nat, p: nat, q: nat) returns (lost: nat)
    requires a + carry * (p * q) == a0 + x * v * q
    ensures a + lost * (p * q) == a0 + x * q * (v + top * p)
  {
    lost := carry + x * top;
    MulAdd(carry, x * top, p * q);
    RowTerm(x, v, top, p, q);
    MulAssoc(x, q, v + top * p);
    MulComm(q, v + top * p);
    MulAssoc(x, v + top * p, q);
  }

  lemma {:induction false} ValSplit(limbs: seq<Limb>, c: nat) returns (top: nat)
    requires c <= |limbs|
    ensures Val(limbs) == Val(limbs[..c]) + top * BPow(c)
    decreases |limbs|
  {
    if c == |limbs| {
      top := 0;
      assert limbs[..c] == limbs;
    } else {
      var n := |limbs| - 1;
      var t := ValSplit(limbs[..n], c);
      assert limbs[..n][..c] == limbs[..c];
      PowAdd(BASE, n - c, c);
      top := t + limbs[n] * BPow(n - c);
      MulAdd(t, limbs[n] * BPow(n - c), BPow(c));
      MulAssoc(limbs[n], BPow(n - c), BPow(c));
    }
  }

  lemma NextRow(x: seq<Limb>, j: nat, v: nat)
    requires j < |x|
    ensures Val(x[..j + 1]) * v == Val(x[..j]) * v + x[j] * BPow(j) * v
  {
    ValNext(x, j);
    MulAdd(Val(x[..j]), x[j] * BPow(j), v);
  }

  // ---------------------------------------------------------------- division

  function Pow2Limb(k: nat): Limb
    requires k < 32
  {
    Pow2Values();
    PowMonotone(2, k, 31);
    assert Pow(2, 32) == 2 * Pow(2, 31);
    Pow2(k)
  }

  /** The quotient so far, the rest of the numerator and the shifted divisor. */
  ghost predicate DivInv(q: nat, num: nat, div: nat, shift: int, n: nat, d: nat) {
    && -1 <= shift
    && (shift >= 0 ==> div == d * Pow2(shift))
    && n == num + q * d && num < d * Pow2(shift + 1)
  }

  lemma DivisionEnds(q: nat, num: nat, div: nat, n: nat, d: nat)
    requires d > 0 && DivInv(q, num, div, -1, n, d)
    ensures q == n / d
  {
    assert Pow2(0) == 1;
    DivUnique(n, d, q, num);
  }

  /** The bits of the quotient that are still to come are clear. */
  ghost predicate QuotientClear(p: seq<Limb>, shift: int) {
    && |p| == WIDTH
    && (0 <= shift < 256 ==>
          && (forall j | 0 <= j < shift / 32 :: p[j] == 0)
          && p[shift / 32] % Pow2(shift % 32 + 1) == 0)
  }

  function WithQuotientBit(p: seq<Limb>, shift: nat): seq<Limb>
    requires |p| == WIDTH && shift < 256
  {
    p[shift / 32 := Or(p[shift / 32], Pow2Limb(shift % 32))]
  }

  lemma SetClearBit(v: Limb, s: nat)
    requires s < 32 && v % Pow2(s + 1) == 0
    ensures Or(v, Pow2Limb(s)) == v + Pow2(s)
    ensures v % Pow2(s) == 0 && (v + Pow2(s)) % Pow2(s) == 0
  {
    var high := v / Pow2(s + 1);
    QuotientBounds(v, Pow2(s + 1));
    BitOrDisjoint(Pow2(s), high, s + 1);
    MulAssoc(high, 2, Pow2(s));
    DivUnique(v, Pow2(s), high * 2, 0);
    DivModAddMultiple(v, 1, Pow2(s));
  }

  /** Setting a clear bit adds its weight, and leaves the bits below clear. */
  lemma SetQuotientBit(p: seq<Limb>, shift: nat)
    requires shift < 256 && QuotientClear(p, shift)
    ensures Val(WithQuotientBit(p, shift)) == Val(p) + Pow2(shift)
    ensures QuotientClear(p, shift - 1) && QuotientClear(WithQuotientBit(p, shift), shift - 1)
  {
    var k, s := shift / 32, shift % 32;
    SetClearBit(p[k], s);
    ValAddTo(p, k, Pow2(s));
    ShiftFactorIsPow2(shift);
    if s == 0 && k > 0 {
      DivUnique(0, Pow2(32), 0, 0);
    }
  }

  lemma DivisionStarts(n: nat, d: nat, nb: nat, db: nat)
    requires 0 < db <= nb <= 256 && n < Pow2(nb) && Pow2(db - 1) <= d < Pow2(db)
    ensures (d * Pow2(nb - db)) % TWO_256 == d * Pow2(nb - db)
    ensures n < d * Pow2(nb - db + 1) && QuotientClear(seq(WIDTH, _ => 0), nb - db)
  {
    var s := nb - db;
    PowAdd(2, db, s);
    MulMono(d, Pow2(db), Pow2(s), Pow2(s));
    var t: nat := d * Pow2(s);
    assert t < Pow2(nb) by { ProductMonotone(d + 1, Pow2(db), Pow2(s)); MulAdd(d, 1, Pow2(s)); }
    PowMonotone(2, nb, 256);
    TwoTo256();
    DivUnique(t, TWO_256, 0, t);
    PowAdd(2, db - 1, s + 1);
    ProductMonotone(Pow2(db - 1), d, Pow2(s + 1));
    DivUnique(0, Pow2(s % 32 + 1), 0, 0);
  }

  lemma TwoTo256()
    ensures Pow2(256) == TWO_256
  {
    Pow2Values();
    PowMul(2, 32, WIDTH);
    BPowWidth();
  }

  lemma SubtractDivisor(q: nat, d: nat, shift: nat)
    ensures (q + Pow2(shift)) * d == q * d + d * Pow2(shift)
    ensures d * Pow2(shift + 1) == d * Pow2(shift) + d * Pow2(shift)
  {
    MulAdd(q, Pow2(shift), d);
    MulComm(Pow2(shift), d);
    MulAdd(d, d, Pow2(shift));
    MulAssoc(d, 2, Pow2(shift));
  }

  lemma HalveDivisor(d: nat, shift: nat)
    ensures shift > 0 ==> (d * Pow2(shift)) / Pow2(1) == d * Pow2(shift - 1)
  {
    if shift > 0 {
      var t: nat := d * Pow2(shift - 1);
      assert d * Pow2(shift) == t * 2 by { MulAssoc(d, 2, Pow2(shift - 1)); MulComm(d, 2); MulAssoc(2, d, Pow2(shift - 1)); }
      assert Pow2(1) == 2;
    }
  }
}
