/**
Bech32 and Bech32m addresses, src/bech32.cpp, after the Checksum subsection of BIP 173 and the
Bech32m section of BIP 350.

Characters are bytes (`bv8`), data symbols are `bv5`, checksums are computed in 32 bits as in the
source.  The checksum is linear over XOR, which is what makes `CreateChecksum` solve for it.
*/
module Bech32 {
  import opened Basics

  type Symbols = seq<bv5>
  type Text = seq<bv8>

  datatype Encoding = BECH32 | BECH32M
  datatype Decoded = Invalid | Valid(encoding: Encoding, hrp: Text, values: Symbols)

  function EncodingConstant(encoding: Encoding): bv32 {
    if encoding == BECH32 then 1 else 0x2bc830a3
  }

  // ---------------------------------------------------------------- the checksum polynomial

  /** Exclusive or by name: proofs that use only its laws need not look at bits. */
  function Xor(a: bv32, b: bv32): bv32 { a ^ b }

  lemma XorComm(a: bv32, b: bv32)
    ensures Xor(a, b) == Xor(b, a)
  {
  }

  lemma XorAssoc(a: bv32, b: bv32, c: bv32)
    ensures Xor(Xor(a, b), c) == Xor(a, Xor(b, c))
  {
  }

  lemma XorZero(a: bv32)
    ensures Xor(a, 0) == a && Xor(0, a) == a && Xor(a, a) == 0
  {
  }

  lemma Interchange(a: bv32, b: bv32, c: bv32, d: bv32)
    ensures Xor(Xor(a, b), Xor(c, d)) == Xor(Xor(a, c), Xor(b, d))
  {
    hide Xor;
    XorAssoc(Xor(a, b), c, d);
    XorAssoc(a, b, c);
    XorComm(b, c);
    XorAssoc(a, c, b);
    XorAssoc(Xor(a, c), b, d);
  }

  /** What each of the five bits that are shifted out contributes: a multiple of the generator. */
  function Term(c: bv32, m: bv32, g: bv32): bv32 { if c & m != 0 then g else 0 }
  function T1(c: bv32): bv32 { Term(c, 0x2000000, 0x3b6a57b2) }
  function T2(c: bv32): bv32 { Term(c, 0x4000000, 0x26508e6d) }
  function T3(c: bv32): bv32 { Term(c, 0x8000000, 0x1ea119fa) }
  function T4(c: bv32): bv32 { Term(c, 0x10000000, 0x3d4233dd) }
  function T5(c: bv32): bv32 { Term(c, 0x20000000, 0x2a1462b3) }
  function Low(c: bv32): bv32 { (c & 0x1ffffff) << 5 }

  /** Multiplication by x, reduced by the generator. */
  function Shift(c: bv32): bv32 {
    Xor(Xor(Xor(Xor(Xor(Low(c), T1(c)), T2(c)), T3(c)), T4(c)), T5(c))
  }

  /** Which bits were shifted out, told from the low five bits of the result. */
  ghost function Q1(c: bv32): bv32 { Term(c, 1, 0x22000000) }
  ghost function Q2(c: bv32): bv32 { Term(c, 2, 0x16000000) }
  ghost function Q3(c: bv32): bv32 { Term(c, 4, 0x2c000000) }
  ghost function Q4(c: bv32): bv32 { Term(c, 8, 0xa000000) }
  ghost function Q5(c: bv32): bv32 { Term(c, 16, 0x14000000) }
  ghost function ShiftedOut(c: bv32): bv32 {
    Xor(Xor(Xor(Xor(Q1(c), Q2(c)), Q3(c)), Q4(c)), Q5(c))
  }

  lemma LowIsLinear(a: bv32, b: bv32)
    ensures Low(Xor(a, b)) == Xor(Low(a), Low(b))
  {
  }

  lemma MaskOfXor(a: bv32, b: bv32, m: bv32)
    ensures Xor(a, b) & m == Xor(a & m, b & m)
  {
  }

  /** A mask of one bit leaves nothing or itself. */
  predicate Decides(m: bv32, a: bv32) { a & m == 0 || a & m == m }

  lemma TermIsLinear(a: bv32, b: bv32, m: bv32, g: bv32)
    requires m != 0 && Decides(m, a) && Decides(m, b)
    ensures Term(Xor(a, b), m, g) == Xor(Term(a, m, g), Term(b, m, g))
  {
    hide Xor;
    MaskOfXor(a, b, m);
    XorZero(m);
    XorZero(g);
    XorZero(0);
  }

  lemma TopBitsDecide(a: bv32)
    ensures Decides(0x2000000, a) && Decides(0x4000000, a) && Decides(0x8000000, a)
    ensures Decides(0x10000000, a) && Decides(0x20000000, a)
  {
  }

  lemma LowBitsDecide(a: bv32)
    ensures Decides(1, a) && Decides(2, a) && Decides(4, a) && Decides(8, a) && Decides(16, a)
  {
  }

  lemma TopTermsAreLinear(a: bv32, b: bv32)
    ensures T1(Xor(a, b)) == Xor(T1(a), T1(b)) && T2(Xor(a, b)) == Xor(T2(a), T2(b))
    ensures T3(Xor(a, b)) == Xor(T3(a), T3(b)) && T4(Xor(a, b)) == Xor(T4(a), T4(b))
    ensures T5(Xor(a, b)) == Xor(T5(a), T5(b))
  {
    hide Xor, Term, Decides;
    TopBitsDecide(a);
    TopBitsDecide(b);
    TermIsLinear(a, b, 0x2000000, 0x3b6a57b2);
    TermIsLinear(a, b, 0x4000000, 0x26508e6d);
    TermIsLinear(a, b, 0x8000000, 0x1ea119fa);
    TermIsLinear(a, b, 0x10000000, 0x3d4233dd);
    TermIsLinear(a, b, 0x20000000, 0x2a1462b3);
  }

  lemma LowTermsAreLinear(a: bv32, b: bv32)
    ensures Q1(Xor(a, b)) == Xor(Q1(a), Q1(b)) && Q2(Xor(a, b)) == Xor(Q2(a), Q2(b))
    ensures Q3(Xor(a, b)) == Xor(Q3(a), Q3(b)) && Q4(Xor(a, b)) == Xor(Q4(a), Q4(b))
    ensures Q5(Xor(a, b)) == Xor(Q5(a), Q5(b))
  {
    hide Xor, Term, Decides;
    LowBitsDecide(a);
    LowBitsDecide(b);
    TermIsLinear(a, b, 1, 0x22000000);
    TermIsLinear(a, b, 2, 0x16000000);
    TermIsLinear(a, b, 4, 0x2c000000);
    TermIsLinear(a, b, 8, 0xa000000);
    TermIsLinear(a, b, 16, 0x14000000);
  }

  lemma ShiftIsLinear(a: bv32, b: bv32)
    ensures Shift(Xor(a, b)) == Xor(Shift(a), Shift(b))
  {
    hide Xor, Low, T1, T2, T3, T4, T5;
    LowIsLinear(a, b);
    TopTermsAreLinear(a, b);
    var a1, b1 := Xor(Low(a), T1(a)), Xor(Low(b), T1(b));
    var a2, b2 := Xor(a1, T2(a)), Xor(b1, T2(b));
    var a3, b3 := Xor(a2, T3(a)), Xor(b2, T3(b));
    var a4, b4 := Xor(a3, T4(a)), Xor(b3, T4(b));
    Interchange(Low(a), Low(b), T1(a), T1(b));
    Interchange(a1, b1, T2(a), T2(b));
    Interchange(a2, b2, T3(a), T3(b));
    Interchange(a3, b3, T4(a), T4(b));
    Interchange(a4, b4, T5(a), T5(b));
  }

  lemma ShiftedOutIsLinear(a: bv32, b: bv32)
    ensures ShiftedOut(Xor(a, b)) == Xor(ShiftedOut(a), ShiftedOut(b))
  {
    hide Xor, Q1, Q2, Q3, Q4, Q5;
    LowTermsAreLinear(a, b);
    var a2, b2 := Xor(Q1(a), Q2(a)), Xor(Q1(b), Q2(b));
    var a3, b3 := Xor(a2, Q3(a)), Xor(b2, Q3(b));
    var a4, b4 := Xor(a3, Q4(a)), Xor(b3, Q4(b));
    Interchange(Q1(a), Q1(b), Q2(a), Q2(b));
    Interchange(a2, b2, Q3(a), Q3(b));
    Interchange(a3, b3, Q4(a), Q4(b));
    Interchange(a4, b4, Q5(a), Q5(b));
  }

  lemma ShiftedOutLow(a: bv32)
    ensures ShiftedOut(Low(a)) == 0
  {
    assert Low(a) & 1 == 0 && Low(a) & 2 == 0 && Low(a) & 4 == 0 && Low(a) & 8 == 0 && Low(a) & 16 == 0;
    XorZero(0);
  }

  lemma ShiftedOutConstants()
    ensures ShiftedOut(0x3b6a57b2) == 0x2000000 && ShiftedOut(0x26508e6d) == 0x4000000 && ShiftedOut(0x1ea119fa) == 0x8000000
    ensures ShiftedOut(0x3d4233dd) == 0x10000000 && ShiftedOut(0x2a1462b3) == 0x20000000 && ShiftedOut(0) == 0
  {
  }

  lemma ShiftedOutTerms(a: bv32)
    ensures ShiftedOut(T1(a)) == a & 0x2000000 && ShiftedOut(T2(a)) == a & 0x4000000 && ShiftedOut(T3(a)) == a & 0x8000000
    ensures ShiftedOut(T4(a)) == a & 0x10000000 && ShiftedOut(T5(a)) == a & 0x20000000
  {
    hide ShiftedOut;
    ShiftedOutConstants();
    TopBitsDecide(a);
  }

  /** The shifted-out bits can be told from the result. */
  lemma ShiftedOutOfShift(a: bv32)
    ensures ShiftedOut(Shift(a)) == Xor(Xor(Xor(Xor(a & 0x2000000, a & 0x4000000), a & 0x8000000), a & 0x10000000), a & 0x20000000)
  {
    hide Xor, ShiftedOut, Low, T1, T2, T3, T4, T5;
    ShiftedOutLow(a);
    ShiftedOutTerms(a);
    var a1 := Xor(Low(a), T1(a));
    var a2 := Xor(a1, T2(a));
    var a3 := Xor(a2, T3(a));
    var a4 := Xor(a3, T4(a));
    ShiftedOutIsLinear(Low(a), T1(a));
    ShiftedOutIsLinear(a1, T2(a));
    ShiftedOutIsLinear(a2, T3(a));
    ShiftedOutIsLinear(a3, T4(a));
    ShiftedOutIsLinear(a4, T5(a));
    XorZero(a & 0x2000000);
  }

  lemma TopBits(a: bv32)
    requires Xor(Xor(Xor(Xor(a & 0x2000000, a & 0x4000000), a & 0x8000000), a & 0x10000000), a & 0x20000000) == 0
    ensures a & 0x3e000000 == 0
  {
  }

  /** On 30 bits only zero is shifted to zero. */
  lemma ShiftIsInjective(a: bv32)
    requires a < 0x40000000 && Shift(a) == 0
    ensures a == 0
  {
    ShiftedOutConstants();
    assert a & 0x3e000000 == 0 by {
      ShiftedOutOfShift(a);
      TopBits(a);
    }
    assert Shift(a) == Low(a) by { NoTerms(a); }
    LowZero(a);
  }

  lemma TopBitsClear(a: bv32)
    requires a & 0x3e000000 == 0
    ensures a & 0x2000000 == 0 && a & 0x4000000 == 0 && a & 0x8000000 == 0 && a & 0x10000000 == 0 && a & 0x20000000 == 0
  {
  }

  lemma NoTerms(a: bv32)
    requires a & 0x3e000000 == 0
    ensures Shift(a) == Low(a)
  {
    hide Xor, Low;
    TopBitsClear(a);
    XorZero(Low(a));
  }

  lemma LowZero(a: bv32)
    requires a < 0x40000000 && a & 0x3e000000 == 0 && Low(a) == 0
    ensures a == 0
  {
  }

  lemma ShiftBound(a: bv32)
    ensures Shift(a) < 0x40000000
  {
  }

  // ---------------------------------------------------------------- folding a sequence of symbols

  function Step(c: bv32, v: bv5): bv32 { Xor(Shift(c), v as bv32) }

  function Fold(c: bv32, v: Symbols): bv32 {
    if v == [] then c else Step(Fold(c, v[..|v| - 1]), v[|v| - 1])
  }

  function PolyMod(v: Symbols): bv32 { Fold(1, v) }

  ghost function ShiftN(c: bv32, n: nat): bv32 {
    if n == 0 then c else Shift(ShiftN(c, n - 1))
  }

  lemma {:induction false} FoldConcat(c: bv32, u: Symbols, v: Symbols)
    ensures Fold(c, u + v) == Fold(Fold(c, u), v)
    decreases |v|
  {
    hide Step;
    if v == [] {
      assert u + v == u;
    } else {
      var n := |v| - 1;
      assert (u + v)[..|u + v| - 1] == u + v[..n];
      FoldConcat(c, u, v[..n]);
    }
  }

  /** The start value and the symbols contribute separately. */
  lemma {:induction false} FoldSplits(c: bv32, v: Symbols)
    ensures Fold(c, v) == Xor(ShiftN(c, |v|), Fold(0, v))
  {
    hide Xor, Shift;
    if v == [] {
      XorZero(c);
    } else {
      var n := |v| - 1;
      FoldSplits(c, v[..n]);
      ShiftIsLinear(ShiftN(c, n), Fold(0, v[..n]));
      XorAssoc(ShiftN(c, n + 1), Shift(Fold(0, v[..n])), v[n] as bv32);
    }
  }

  lemma {:induction false} FoldBound(c: bv32, v: Symbols)
    requires c < 0x40000000
    ensures Fold(c, v) < 0x40000000
  {
    hide Shift;
    if v != [] {
      FoldBound(c, v[..|v| - 1]);
      ShiftBound(Fold(c, v[..|v| - 1]));
      SymbolBound(Shift(Fold(c, v[..|v| - 1])), v[|v| - 1]);
    }
  }

  lemma SymbolBound(x: bv32, v: bv5)
    requires x < 0x40000000
    ensures Xor(x, v as bv32) < 0x40000000
  {
  }

  lemma {:induction false} ShiftNBound(c: bv32, n: nat)
    requires c < 0x40000000
    ensures ShiftN(c, n) < 0x40000000
  {
    hide Shift;
    if n > 0 {
      ShiftNBound(c, n - 1);
      ShiftBound(ShiftN(c, n - 1));
    }
  }

  /** A difference never dies out. */
  lemma {:induction false} DifferencePersists(c: bv32, n: nat)
    requires c < 0x40000000 && c != 0
    ensures ShiftN(c, n) != 0
  {
    hide Shift;
    if n > 0 {
      DifferencePersists(c, n - 1);
      ShiftNBound(c, n - 1);
      if Shift(ShiftN(c, n - 1)) == 0 {
        ShiftIsInjective(ShiftN(c, n - 1));
      }
    }
  }

  // ---------------------------------------------------------------- solving for the checksum

  function SymbolAt(m: bv32, k: nat): bv5
    requires k < 6
  {
    match k
    case 0 => ((m >> 25) & 31) as bv5
    case 1 => ((m >> 20) & 31) as bv5
    case 2 => ((m >> 15) & 31) as bv5
    case 3 => ((m >> 10) & 31) as bv5
    case 4 => ((m >> 5) & 31) as bv5
    case _ => (m & 31) as bv5
  }

  /** The six symbols of a 30-bit number, highest first. */
  function Split(m: bv32): Symbols {
    [SymbolAt(m, 0), SymbolAt(m, 1), SymbolAt(m, 2), SymbolAt(m, 3), SymbolAt(m, 4), SymbolAt(m, 5)]
  }

  /** One more symbol at the low end. */
  function Append(c: bv32, v: bv5): bv32 { (c << 5) ^ (v as bv32) }

  lemma StepSmall(c: bv32, v: bv5)
    requires c < 0x2000000
    ensures Step(c, v) == Append(c, v)
  {
    assert c & 0x3e000000 == 0;
    NoTerms(c);
  }

  lemma AppendBound(c: bv32, v: bv5)
    ensures c < 1 ==> Append(c, v) < 0x20
    ensures c < 0x20 ==> Append(c, v) < 0x400
    ensures c < 0x400 ==> Append(c, v) < 0x8000
    ensures c < 0x8000 ==> Append(c, v) < 0x100000
    ensures c < 0x100000 ==> Append(c, v) < 0x2000000
  {
  }

  ghost function Pack(r: Symbols): bv32
    requires |r| == 6
  {
    Append(Append(Append(Append(Append(Append(0, r[0]), r[1]), r[2]), r[3]), r[4]), r[5])
  }

  lemma FoldIsPack(r: Symbols)
    requires |r| == 6
    ensures Fold(0, r) == Pack(r)
  {
    hide Step, Append;
    var c1 := Append(0, r[0]);
    var c2 := Append(c1, r[1]);
    var c3 := Append(c2, r[2]);
    var c4 := Append(c3, r[3]);
    var c5 := Append(c4, r[4]);
    AppendBound(0, r[0]);
    AppendBound(c1, r[1]);
    AppendBound(c2, r[2]);
    AppendBound(c3, r[3]);
    AppendBound(c4, r[4]);
    assert r[..6] == r;
    FoldNext(0, r, 0, 0);
    FoldNext(0, r, 1, c1);
    FoldNext(0, r, 2, c2);
    FoldNext(0, r, 3, c3);
    FoldNext(0, r, 4, c4);
    FoldNext(0, r, 5, c5);
  }

  lemma FoldNext(c: bv32, r: Symbols, k: nat, f: bv32)
    requires k < |r| && Fold(c, r[..k]) == f && f < 0x2000000
    ensures Fold(c, r[..k + 1]) == Append(f, r[k])
  {
    hide Step, Append;
    assert r[..k + 1][..k] == r[..k];
    StepSmall(f, r[k]);
  }

  lemma PackSplit(m: bv32)
    requires m < 0x40000000
    ensures Pack(Split(m)) == m
  {
  }

  lemma SplitPack(r: Symbols)
    requires |r| == 6
    ensures Split(Pack(r)) == r
  {
  }

  /** The checksum that makes the whole come out at the constant of the encoding. */
  ghost function Checksum(start: bv32, encoding: Encoding): Symbols {
    Split(Xor(ShiftN(start, 6), EncodingConstant(encoding)))
  }

  lemma ConstantBound(encoding: Encoding, x: bv32)
    requires x < 0x40000000
    ensures Xor(x, EncodingConstant(encoding)) < 0x40000000
  {
  }

  /** Six symbols complete a message exactly when they are its checksum. */
  lemma ChecksumIsUnique(start: bv32, encoding: Encoding, r: Symbols)
    requires start < 0x40000000 && |r| == 6
    ensures Fold(start, r) == EncodingConstant(encoding) <==> r == Checksum(start, encoding)
  {
    hide Xor, Split, Pack, Shift, EncodingConstant;
    var x, k := ShiftN(start, 6), EncodingConstant(encoding);
    ShiftNBound(start, 6);
    ConstantBound(encoding, x);
    FoldSplits(start, r);
    FoldIsPack(r);
    PackSplit(Xor(x, k));
    SplitPack(r);
    XorCancel(x, Pack(r), k);
  }

  lemma XorCancel(x: bv32, y: bv32, z: bv32)
    ensures Xor(x, y) == z <==> y == Xor(x, z)
  {
    hide Xor;
    XorAssoc(x, x, y);
    XorAssoc(x, x, z);
    XorZero(x);
    XorZero(y);
    XorZero(z);
  }

  // ---------------------------------------------------------------- characters

  const SEPARATOR: bv8 := 49

  function Character(v: bv5): bv8 {
    if v == 0 then 113
    else if v == 1 then 112
    else if v == 2 then 122
    else if v == 3 then 114
    else if v == 4 then 121
    else if v == 5 then 57
    else if v == 6 then 120
    else if v == 7 then 56
    else if v == 8 then 103
    else if v == 9 then 102
    else if v == 10 then 50
    else if v == 11 then 116
    else if v == 12 then 118
    else if v == 13 then 100
    else if v == 14 then 119
    else if v == 15 then 48
    else if v == 16 then 115
    else if v == 17 then 51
    else if v == 18 then 106
    else if v == 19 then 110
    else if v == 20 then 53
    else if v == 21 then 52
    else if v == 22 then 107
    else if v == 23 then 104
    else if v == 24 then 99
    else if v == 25 then 101
    else if v == 26 then 54
    else if v == 27 then 109
    else if v == 28 then 117
    else if v == 29 then 97
    else if v == 30 then 55
    else 108
  }

  predicate IsUpper(c: bv8) { 65 <= c <= 90 }
  predicate IsLower(c: bv8) { 97 <= c <= 122 }

  function LowerCase(c: bv8): bv8 { if IsUpper(c) then c + 32 else c }

  function Symbol(c: bv8): Option<bv5> {
    if c == 113 then Some(0)
    else if c == 112 then Some(1)
    else if c == 122 then Some(2)
    else if c == 114 then Some(3)
    else if c == 121 then Some(4)
    else if c == 57 then Some(5)
    else if c == 120 then Some(6)
    else if c == 56 then Some(7)
    else if c == 103 then Some(8)
    else if c == 102 then Some(9)
    else if c == 50 then Some(10)
    else if c == 116 then Some(11)
    else if c == 118 then Some(12)
    else if c == 100 then Some(13)
    else if c == 119 then Some(14)
    else if c == 48 then Some(15)
    else if c == 115 then Some(16)
    else if c == 51 then Some(17)
    else if c == 106 then Some(18)
    else if c == 110 then Some(19)
    else if c == 53 then Some(20)
    else if c == 52 then Some(21)
    else if c == 107 then Some(22)
    else if c == 104 then Some(23)
    else if c == 99 then Some(24)
    else if c == 101 then Some(25)
    else if c == 54 then Some(26)
    else if c == 109 then Some(27)
    else if c == 117 then Some(28)
    else if c == 97 then Some(29)
    else if c == 55 then Some(30)
    else if c == 108 then Some(31)
    else None
  }

  lemma SymbolOfCharacter(v: bv5)
    ensures Symbol(Character(v)) == Some(v)
  {
    hide Symbol, Character;
    if v < 16 {
      LowerHalf(v);
    } else if v < 24 {
      ThirdQuarter(v);
    } else {
      LastQuarter(v);
    }
  }

  lemma LowerHalf(v: bv5)
    requires v < 16
    ensures Symbol(Character(v)) == Some(v)
  {
  }

  lemma ThirdQuarter(v: bv5)
    requires 16 <= v < 24
    ensures Symbol(Character(v)) == Some(v)
  {
  }

  lemma LastQuarter(v: bv5)
    requires v >= 24
    ensures Symbol(Character(v)) == Some(v)
  {
  }

  lemma CharacterIsPlain(v: bv5)
    ensures Character(v) != SEPARATOR && 33 <= Character(v) <= 126
    ensures !IsUpper(Character(v)) && LowerCase(Character(v)) == Character(v)
  {
  }

  lemma CharacterOfSymbol(c: bv8)
    ensures Symbol(c).Some? ==> Character(Symbol(c).value) == c
  {
  }

  predicate InRange(c: bv8) { 33 <= c <= 126 }

  /** All characters are printable, and upper and lower case are not mixed. */
  predicate CharactersOk(str: Text) {
    && (forall i | 0 <= i < |str| :: InRange(str[i]))
    && !(exists i, j :: 0 <= i < |str| && 0 <= j < |str| && IsLower(str[i]) && IsUpper(str[j]))
  }

  function LowerAll(str: Text): (r: Text)
    ensures |r| == |str|
  {
    if str == [] then [] else LowerAll(str[..|str| - 1]) + [LowerCase(str[|str| - 1])]
  }

  function CharacterAll(v: Symbols): (r: Text)
    ensures |r| == |v|
  {
    if v == [] then [] else CharacterAll(v[..|v| - 1]) + [Character(v[|v| - 1])]
  }

  /** The symbols of a text, in either case; none if a character is not in the character set. */
  function SymbolAll(str: Text): (r: Option<Symbols>)
    ensures r.Some? ==> |r.value| == |str|
  {
    if str == [] then Some([])
    else
      var before, last := SymbolAll(str[..|str| - 1]), Symbol(LowerCase(str[|str| - 1]));
      if before.Some? && last.Some? then Some(before.value + [last.value]) else None
  }

  /** Where the last separator is, or -1. */
  function LastSeparator(str: Text): (pos: int)
    ensures -1 <= pos < |str|
  {
    if str == [] then -1 else if str[|str| - 1] == SEPARATOR then |str| - 1 else LastSeparator(str[..|str| - 1])
  }

  function HighBits(c: bv8): bv5 { (c >> 5) as bv5 }
  function LowBits(c: bv8): bv5 { (c & 31) as bv5 }

  function ExpandHRP(hrp: Text): Symbols {
    seq(|hrp|, i requires 0 <= i < |hrp| => HighBits(hrp[i])) + [0] + seq(|hrp|, i requires 0 <= i < |hrp| => LowBits(hrp[i]))
  }

  ghost function VerifyChecksum(hrp: Text, values: Symbols): Option<Encoding> {
    var check := PolyMod(ExpandHRP(hrp) + values);
    if check == EncodingConstant(BECH32) then Some(BECH32)
    else if check == EncodingConstant(BECH32M) then Some(BECH32M)
    else None
  }

  ghost function CreateChecksum(encoding: Encoding, hrp: Text, values: Symbols): Symbols {
    Split(Xor(PolyMod(ExpandHRP(hrp) + values + [0, 0, 0, 0, 0, 0]), EncodingConstant(encoding)))
  }

  ghost function Encode(encoding: Encoding, hrp: Text, values: Symbols): Text {
    hrp + [SEPARATOR] + CharacterAll(values + CreateChecksum(encoding, hrp, values))
  }

  ghost function Decode(str: Text): Decoded {
    var pos := LastSeparator(str);
    if !CharactersOk(str) || |str| > 90 || pos < 1 || pos + 7 > |str| then Invalid
    else
      var values, hrp := SymbolAll(str[pos + 1..]), LowerAll(str[..pos]);
      if values.None? then Invalid
      else
        match VerifyChecksum(hrp, values.value)
        case None => Invalid
        case Some(encoding) => Valid(encoding, hrp, values.value[..|values.value| - 6])
  }

  // ---------------------------------------------------------------- the checksum of a message

  lemma {:induction false} FoldZeros(c: bv32, zeros: Symbols)
    requires forall i | 0 <= i < |zeros| :: zeros[i] == 0
    ensures Fold(c, zeros) == ShiftN(c, |zeros|)
  {
    hide Xor, Shift;
    if zeros != [] {
      var n := |zeros| - 1;
      FoldZeros(c, zeros[..n]);
      assert zeros[n] as bv32 == 0;
      XorZero(Shift(ShiftN(c, n)));
    }
  }

  lemma CreateIsChecksum(encoding: Encoding, hrp: Text, values: Symbols)
    ensures CreateChecksum(encoding, hrp, values) == Checksum(PolyMod(ExpandHRP(hrp) + values), encoding)
  {
    hide Xor, Split, Fold;
    var m := ExpandHRP(hrp) + values;
    FoldConcat(1, m, [0, 0, 0, 0, 0, 0]);
    FoldZeros(PolyMod(m), [0, 0, 0, 0, 0, 0]);
  }

  /** Six symbols after a message verify under an encoding exactly when they are the created checksum. */
  lemma VerifyIsCreate(encoding: Encoding, hrp: Text, values: Symbols, r: Symbols)
    requires |r| == 6
    ensures VerifyChecksum(hrp, values + r) == Some(encoding) <==> r == CreateChecksum(encoding, hrp, values)
  {
    hide Fold, ExpandHRP, Checksum, CreateChecksum;
    var m := ExpandHRP(hrp) + values;
    assert ExpandHRP(hrp) + (values + r) == m + r;
    FoldConcat(1, m, r);
    FoldBound(1, m);
    ChecksumIsUnique(PolyMod(m), encoding, r);
    CreateIsChecksum(encoding, hrp, values);
  }

  /** One substituted symbol is always noticed. */
  lemma SubstitutionDetected(encoding: Encoding, hrp: Text, values: Symbols, i: nat, v: bv5)
    requires i < |values| && v != values[i] && VerifyChecksum(hrp, values) == Some(encoding)
    ensures VerifyChecksum(hrp, values[i := v]) != Some(encoding)
  {
    hide Fold, ExpandHRP;
    var front, back := ExpandHRP(hrp) + values[..i], values[i + 1..];
    assert ExpandHRP(hrp) + values == front + ([values[i]] + back);
    assert ExpandHRP(hrp) + values[i := v] == front + ([v] + back);
    FoldConcat(1, front, [values[i]] + back);
    FoldConcat(1, front, [v] + back);
    SymbolMatters(PolyMod(front), values[i], v, back);
  }

  lemma SymbolMatters(c: bv32, v: bv5, w: bv5, back: Symbols)
    requires v != w
    ensures Fold(c, [v] + back) != Fold(c, [w] + back)
  {
    hide Xor, Shift;
    FoldConcat(c, [v], back);
    FoldConcat(c, [w], back);
    assert [v][..0] == [] && [w][..0] == [];
    var a, b := Step(c, v), Step(c, w);
    FoldSplits(a, back);
    FoldSplits(b, back);
    StepsDiffer(Shift(c), v, w);
    var n := |back|;
    DifferencePersists(Xor(a, b), n);
    ShiftNLinear(a, b, n);
    EqualCancel(ShiftN(a, n), ShiftN(b, n), Fold(0, back));
  }

  lemma StepsDiffer(x: bv32, v: bv5, w: bv5)
    requires v != w
    ensures Xor(Xor(x, v as bv32), Xor(x, w as bv32)) != 0 && Xor(Xor(x, v as bv32), Xor(x, w as bv32)) < 0x40000000
  {
    Interchange(x, v as bv32, x, w as bv32);
    XorZero(x);
    XorZero(Xor(v as bv32, w as bv32));
  }

  lemma {:induction false} ShiftNLinear(a: bv32, b: bv32, n: nat)
    ensures ShiftN(Xor(a, b), n) == Xor(ShiftN(a, n), ShiftN(b, n))
  {
    hide Xor, Shift;
    if n > 0 {
      ShiftNLinear(a, b, n - 1);
      ShiftIsLinear(ShiftN(a, n - 1), ShiftN(b, n - 1));
    }
  }

  lemma EqualCancel(a: bv32, b: bv32, y: bv32)
    ensures Xor(a, y) == Xor(b, y) ==> Xor(a, b) == 0
  {
  }

  // ---------------------------------------------------------------- both ways

  lemma {:induction false} SymbolAllOfCharacters(v: Symbols)
    ensures SymbolAll(CharacterAll(v)) == Some(v)
  {
    hide Character, Symbol;
    if v != [] {
      var n := |v| - 1;
      SymbolAllOfCharacters(v[..n]);
      SymbolOfCharacter(v[n]);
      CharacterIsPlain(v[n]);
      assert CharacterAll(v)[..n] == CharacterAll(v[..n]);
      assert v == v[..n] + [v[n]];
    }
  }

  lemma {:induction false} CharactersOfSymbols(str: Text)
    ensures SymbolAll(str).Some? ==> CharacterAll(SymbolAll(str).value) == LowerAll(str)
  {
    hide Character, Symbol;
    if str != [] && SymbolAll(str).Some? {
      var n := |str| - 1;
      CharactersOfSymbols(str[..n]);
      CharacterOfSymbol(LowerCase(str[n]));
      var values := SymbolAll(str).value;
      assert values[..n] == SymbolAll(str[..n]).value;
    }
  }

  lemma {:induction false} CharactersArePlain(v: Symbols)
    ensures forall i | 0 <= i < |v| :: CharacterAll(v)[i] != SEPARATOR && InRange(CharacterAll(v)[i]) && !IsUpper(CharacterAll(v)[i])
  {
    hide Character;
    if v != [] {
      CharactersArePlain(v[..|v| - 1]);
      CharacterIsPlain(v[|v| - 1]);
    }
  }

  lemma {:induction false} SeparatorFound(hrp: Text, rest: Text)
    requires forall i | 0 <= i < |rest| :: rest[i] != SEPARATOR
    ensures LastSeparator(hrp + [SEPARATOR] + rest) == |hrp|
    decreases |rest|
  {
    var str := hrp + [SEPARATOR] + rest;
    if rest != [] {
      var n := |rest| - 1;
      assert str[..|str| - 1] == hrp + [SEPARATOR] + rest[..n];
      SeparatorFound(hrp, rest[..n]);
    }
  }

  lemma {:induction false} LowerAllPlain(str: Text)
    requires forall i | 0 <= i < |str| :: !IsUpper(str[i])
    ensures LowerAll(str) == str
  {
    if str != [] {
      LowerAllPlain(str[..|str| - 1]);
    }
  }

  lemma EncodedCharacters(hrp: Text, v: Symbols)
    requires forall i | 0 <= i < |hrp| :: !IsUpper(hrp[i])
    ensures CharactersOk(hrp + [SEPARATOR] + CharacterAll(v)) <==> forall i | 0 <= i < |hrp| :: InRange(hrp[i])
  {
    hide CharacterAll;
    CharactersArePlain(v);
    var str := hrp + [SEPARATOR] + CharacterAll(v);
    forall j | 0 <= j < |str| ensures !IsUpper(str[j]) && (j >= |hrp| ==> InRange(str[j])) && (j < |hrp| ==> str[j] == hrp[j]) {
      assert j > |hrp| ==> str[j] == CharacterAll(v)[j - |hrp| - 1];
    }
  }

  /** What is encoded decodes to itself exactly when the prefix is a proper one and the length is in bounds. */
  lemma DecodeEncode(encoding: Encoding, hrp: Text, values: Symbols)
    requires forall i | 0 <= i < |hrp| :: !IsUpper(hrp[i])
    ensures Decode(Encode(encoding, hrp, values)) == Valid(encoding, hrp, values)
            <==> hrp != [] && (forall i | 0 <= i < |hrp| :: InRange(hrp[i])) && |hrp| + |values| + 7 <= 90
  {
    hide CreateChecksum, VerifyChecksum, CharacterAll, SymbolAll, LowerAll, CharactersOk, LastSeparator;
    var r := CreateChecksum(encoding, hrp, values);
    var rest := CharacterAll(values + r);
    var str := Encode(encoding, hrp, values);
    ChecksumLength(encoding, hrp, values);
    EncodedCharacters(hrp, values + r);
    CharactersArePlain(values + r);
    SeparatorFound(hrp, rest);
    assert str[|hrp| + 1..] == rest && str[..|hrp|] == hrp;
    SymbolAllOfCharacters(values + r);
    LowerAllPlain(hrp);
    VerifyIsCreate(encoding, hrp, values, r);
    assert (values + r)[..|values|] == values;
  }

  lemma ChecksumLength(encoding: Encoding, hrp: Text, values: Symbols)
    ensures |CreateChecksum(encoding, hrp, values)| == 6
  {
  }

  /** What decodes is, in lower case, the one encoding of its parts. */
  lemma EncodeDecode(str: Text)
    ensures var d := Decode(str);
            d.Valid? ==> Encode(d.encoding, d.hrp, d.values) == LowerAll(str)
  {
    hide CreateChecksum, VerifyChecksum, CharacterAll, SymbolAll, LowerAll, CharactersOk;
    var d := Decode(str);
    if d.Valid? {
      var pos := LastSeparator(str);
      var all := SymbolAll(str[pos + 1..]).value;
      var n := |all| - 6;
      assert all == all[..n] + all[n..];
      VerifyIsCreate(d.encoding, d.hrp, all[..n], all[n..]);
      CharactersOfSymbols(str[pos + 1..]);
      SeparatorThere(str);
      LowerAllConcat(str[..pos], [SEPARATOR]);
      LowerAllConcat(str[..pos] + [SEPARATOR], str[pos + 1..]);
      assert str == str[..pos] + [SEPARATOR] + str[pos + 1..];
      LowerSeparator();
    }
  }

  lemma LowerSeparator()
    ensures LowerAll([SEPARATOR]) == [SEPARATOR]
  {
    assert [SEPARATOR][..0] == [];
  }

  lemma {:induction false} SeparatorThere(str: Text)
    ensures LastSeparator(str) >= 0 ==> str[LastSeparator(str)] == SEPARATOR
  {
    if str != [] && str[|str| - 1] != SEPARATOR {
      SeparatorThere(str[..|str| - 1]);
    }
  }

  lemma {:induction false} LowerAllConcat(a: Text, b: Text)
    ensures LowerAll(a + b) == LowerAll(a) + LowerAll(b)
    decreases |b|
  {
    if b == [] {
      assert a + b == a;
    } else {
      var n := |b| - 1;
      assert (a + b)[..|a + b| - 1] == a + b[..n];
      LowerAllConcat(a, b[..n]);
    }
  }

  // ---------------------------------------------------------------- the loops

  lemma SwapLast(x: bv32, v: bv32, t: bv32)
    ensures Xor(Xor(x, v), t) == Xor(Xor(x, t), v)
  {
    hide Xor;
    XorAssoc(x, v, t);
    XorComm(v, t);
    XorAssoc(x, t, v);
  }

  /** The symbol may be added before the multiples of the generator. */
  lemma SymbolFirst(c: bv32, v: bv32)
    ensures Xor(Xor(Xor(Xor(Xor(Xor(Low(c), v), T1(c)), T2(c)), T3(c)), T4(c)), T5(c)) == Xor(Shift(c), v)
  {
    hide Xor, Low, T1, T2, T3, T4, T5;
    var a1 := Xor(Low(c), T1(c));
    var a2 := Xor(a1, T2(c));
    var a3 := Xor(a2, T3(c));
    var a4 := Xor(a3, T4(c));
    SwapLast(Low(c), v, T1(c));
    SwapLast(a1, v, T2(c));
    SwapLast(a2, v, T3(c));
    SwapLast(a3, v, T4(c));
    SwapLast(a4, v, T5(c));
  }

  lemma TopBit(c: bv32)
    ensures (c >> 25) & 1 != 0 <==> c & 0x2000000 != 0
    ensures (c >> 25) & 2 != 0 <==> c & 0x4000000 != 0
    ensures (c >> 25) & 4 != 0 <==> c & 0x8000000 != 0
    ensures (c >> 25) & 8 != 0 <==> c & 0x10000000 != 0
    ensures (c >> 25) & 16 != 0 <==> c & 0x20000000 != 0
  {
  }

  method StepOnce(c: bv32, v: bv5) returns (r: bv32)
    ensures r == Step(c, v)
  {
    hide Xor;
    var c0 := c >> 25;
    TopBit(c);
    r := Xor((c & 0x1ffffff) << 5, v as bv32);
    if c0 & 1 != 0 { r := Xor(r, 0x3b6a57b2); } else { XorZero(r); }
    if c0 & 2 != 0 { r := Xor(r, 0x26508e6d); } else { XorZero(r); }
    if c0 & 4 != 0 { r := Xor(r, 0x1ea119fa); } else { XorZero(r); }
    if c0 & 8 != 0 { r := Xor(r, 0x3d4233dd); } else { XorZero(r); }
    if c0 & 16 != 0 { r := Xor(r, 0x2a1462b3); } else { XorZero(r); }
    SymbolFirst(c, v as bv32);
  }

  method ComputePolyMod(v: Symbols) returns (c: bv32)
    ensures c == PolyMod(v)
  {
    hide Step;
    c := 1;
    for i := 0 to |v|
      invariant c == Fold(1, v[..i])
    {
      assert v[..i + 1][..i] == v[..i];
      c := StepOnce(c, v[i]);
    }
    assert v[..|v|] == v;
  }

  method ComputeExpandHRP(hrp: Text) returns (ret: Symbols)
    ensures ret == ExpandHRP(hrp)
  {
    hide HighBits, LowBits;
    ret := seq(2 * |hrp| + 1, _ => 0);
    for i := 0 to |hrp|
      invariant |ret| == 2 * |hrp| + 1
      invariant forall k | 0 <= k < i :: ret[k] == HighBits(hrp[k]) && ret[k + |hrp| + 1] == LowBits(hrp[k])
    {
      ret := ret[i := HighBits(hrp[i])][i + |hrp| + 1 := LowBits(hrp[i])];
    }
    ret := ret[|hrp| := 0];
  }

  method ComputeChecksum(encoding: Encoding, hrp: Text, values: Symbols) returns (ret: Symbols)
    ensures ret == CreateChecksum(encoding, hrp, values)
  {
    hide Xor, Fold, ExpandHRP, SymbolAt;
    var enc := ComputeExpandHRP(hrp);
    enc := enc + values;
    enc := enc + [0, 0, 0, 0, 0, 0];
    var mod := ComputePolyMod(enc);
    mod := Xor(mod, EncodingConstant(encoding));
    ret := [0, 0, 0, 0, 0, 0];
    for i := 0 to 6
      invariant |ret| == 6 && forall k: nat | k < i :: ret[k] == SymbolAt(mod, k)
    {
      ret := ret[i := SymbolAt(mod, i)];
    }
    assert ret == Split(mod);
  }

  predicate IsLetter(c: bv8) { IsLower(c) || IsUpper(c) }

  /** The letter at j is the first one, and the letter at k is of the other case. */
  predicate OtherCase(str: Text, j: nat, k: nat)
    requires j < k < |str|
  {
    && IsLetter(str[j]) && IsLetter(str[k]) && IsLower(str[j]) != IsLower(str[k])
    && forall i | 0 <= i < j :: !IsLetter(str[i])
  }

  predicate Offends(str: Text, k: nat)
    requires k < |str|
  {
    !InRange(str[k]) || exists j | 0 <= j < k :: OtherCase(str, j, k)
  }

  /** One position of the scan: `first` is the number of characters before the first letter. */
  lemma OffendsAt(str: Text, first: nat, k: nat)
    requires first <= k < |str| && (forall i | 0 <= i < first :: !IsLetter(str[i])) && (first < k ==> IsLetter(str[first]))
    ensures Offends(str, k) <==>
              !InRange(str[k]) || (first < k && IsLetter(str[k]) && IsLower(str[first]) != IsLower(str[k]))
  {
    if first < k && IsLetter(str[k]) && IsLower(str[first]) != IsLower(str[k]) {
      assert OtherCase(str, first, k);
    }
  }

  lemma NothingOffends(str: Text)
    ensures CharactersOk(str) <==> forall k | 0 <= k < |str| :: !Offends(str, k)
  {
    if k, j :| 0 <= k < |str| && 0 <= j < |str| && IsLower(str[k]) && IsUpper(str[j]) {
      var first := 0;
      while !IsLetter(str[first])
        invariant first <= k && first <= j && forall i | 0 <= i < first :: !IsLetter(str[i])
        decreases |str| - first
      {
        first := first + 1;
      }
      OffendsAt(str, first, if IsLower(str[first]) then j else k);
    } else {
      forall k | 0 <= k < |str| && InRange(str[k]) ensures !Offends(str, k) {
        forall j | 0 <= j < k ensures !OtherCase(str, j, k) {
        }
      }
      assert forall k | 0 <= k < |str| && !InRange(str[k]) :: Offends(str, k);
    }
  }

  /** The positions of characters that are out of range or not of the case of the first letter, in order. */
  method CheckCharacters(str: Text) returns (errors: seq<nat>)
    ensures forall k: nat :: k in errors <==> k < |str| && Offends(str, k)
    ensures forall i, j | 0 <= i < j < |errors| :: errors[i] < errors[j]
    ensures errors == [] <==> CharactersOk(str)
  {
    var lower, upper := false, false;
    ghost var first := 0;
    errors := [];
    for i := 0 to |str|
      invariant first <= i && (forall k | 0 <= k < first :: !IsLetter(str[k])) && (first < i ==> IsLetter(str[first]))
      invariant (lower <==> first < i && IsLower(str[first])) && (upper <==> first < i && IsUpper(str[first]))
      invariant forall k: nat :: k in errors <==> k < i && Offends(str, k)
      invariant forall k | 0 <= k < |errors| :: errors[k] < i
      invariant forall j, k | 0 <= j < k < |errors| :: errors[j] < errors[k]
    {
      OffendsAt(str, first, i);
      var c := str[i];
      if IsLower(c) {
        if upper {
          errors := errors + [i];
        } else {
          lower := true;
        }
      } else if IsUpper(c) {
        if lower {
          errors := errors + [i];
        } else {
          upper := true;
        }
      } else if c < 33 || c > 126 {
        errors := errors + [i];
      }
      if first == i && !IsLetter(c) {
        first := first + 1;
      }
    }
    NothingOffends(str);
    assert errors != [] ==> errors[0] in errors;
  }

  method EncodeText(encoding: Encoding, hrp: Text, values: Symbols) returns (ret: Text)
    requires forall i | 0 <= i < |hrp| :: !IsUpper(hrp[i])
    ensures ret == Encode(encoding, hrp, values)
  {
    hide CreateChecksum, Character;
    var checksum := ComputeChecksum(encoding, hrp, values);
    var combined := values + checksum;
    ret := hrp + [SEPARATOR];
    for i := 0 to |combined|
      invariant ret == hrp + [SEPARATOR] + CharacterAll(combined[..i])
    {
      assert combined[..i + 1][..i] == combined[..i];
      ret := ret + [Character(combined[i])];
    }
    assert combined[..|combined|] == combined;
  }

  method ReadSymbols(str: Text) returns (r: Option<Symbols>)
    ensures r == SymbolAll(str)
  {
    hide Symbol;
    var values: Symbols := [];
    var i := 0;
    var bad := false;
    while i < |str| && !bad
      invariant 0 <= i <= |str|
      invariant if bad then SymbolAll(str[..i]).None? else SymbolAll(str[..i]) == Some(values)
    {
      assert str[..i + 1][..i] == str[..i];
      var rev := Symbol(LowerCase(str[i]));
      if rev.None? {
        bad := true;
      } else {
        values := values + [rev.value];
      }
      i := i + 1;
    }
    if bad {
      SymbolAllFails(str, i);
      r := None;
    } else {
      assert str[..|str|] == str;
      r := Some(values);
    }
  }

  lemma {:induction false} SymbolAllFails(str: Text, i: nat)
    requires i <= |str| && SymbolAll(str[..i]).None?
    ensures SymbolAll(str).None?
    decreases |str| - i
  {
    if i < |str| {
      assert str[..i + 1][..i] == str[..i];
      SymbolAllFails(str, i + 1);
    } else {
      assert str[..i] == str;
    }
  }

  method LowerText(str: Text) returns (r: Text)
    ensures r == LowerAll(str)
  {
    r := [];
    for i := 0 to |str|
      invariant r == LowerAll(str[..i])
    {
      assert str[..i + 1][..i] == str[..i];
      r := r + [LowerCase(str[i])];
    }
    assert str[..|str|] == str;
  }

  method DecodeText(str: Text) returns (d: Decoded)
    ensures d == Decode(str)
  {
    hide CharactersOk, SymbolAll, LowerAll, PolyMod, ExpandHRP, LastSeparator;
    d := Invalid;
    var errors := CheckCharacters(str);
    var pos := LastSeparator(str);
    if errors == [] && |str| <= 90 && pos >= 1 && pos + 7 <= |str| {
      var values := ReadSymbols(str[pos + 1..]);
      if values.Some? {
        var hrp := LowerText(str[..pos]);
        var expanded := ComputeExpandHRP(hrp);
        var check := ComputePolyMod(expanded + values.value);
        if check == EncodingConstant(BECH32) {
          d := Valid(BECH32, hrp, values.value[..|values.value| - 6]);
        } else if check == EncodingConstant(BECH32M) {
          d := Valid(BECH32M, hrp, values.value[..|values.value| - 6]);
        }
      }
    }
  }
}
