/**
Base58 and Base58Check, src/base58.cpp: a byte string as a number in base 58, with leading
zero bytes kept as leading '1' characters.

Both directions run the same multiply-and-add loop over a buffer of a size computed in advance;
that the buffer is never too small is the `carry == 0` assertion after the loop.
*/
module Base58 {
  import opened Basics
  import opened Numbers

  // ---------------------------------------------------------------- numbers in a base

  predicate DigitsOk(base: nat, s: seq<int>) {
    forall i | 0 <= i < |s| :: 0 <= s[i] < base
  }

  /** The number that digits stand for, highest first. */
  ghost function Num(base: nat, s: seq<int>): int {
    if s == [] then 0 else Num(base, s[..|s| - 1]) * base + s[|s| - 1]
  }

  /** The digits of a number without leading zeros. */
  function Digits(base: nat, n: nat): (s: seq<int>)
    requires base >= 2
    ensures DigitsOk(base, s) && (s != [] ==> s[0] != 0)
    decreases n
  {
    if n == 0 then [] else Digits(base, n / base) + [n % base]
  }

  lemma {:induction false} NumOfDigits(base: nat, n: nat)
    requires base >= 2
    ensures Num(base, Digits(base, n)) == n
    decreases n
  {
    hide Num;
    if n > 0 {
      NumOfDigits(base, n / base);
      NumSnoc(base, Digits(base, n / base), n % base);
      Recompose(n, base);
    } else {
      NumEmpty(base);
    }
  }

  lemma NumEmpty(base: nat)
    ensures Num(base, []) == 0
  {
  }

  lemma NumSnoc(base: nat, s: seq<int>, d: int)
    ensures Num(base, s + [d]) == Num(base, s) * base + d
  {
    assert (s + [d])[..|s|] == s;
  }

  lemma Recompose(n: nat, base: nat)
    requires base > 0
    ensures n / base * base + n % base == n
  {
  }

  lemma {:induction false} NumNonNegative(base: nat, s: seq<int>)
    requires DigitsOk(base, s)
    ensures Num(base, s) >= 0
  {
    if s != [] {
      NumNonNegative(base, s[..|s| - 1]);
    }
  }

  lemma {:induction false} DigitsOfNum(base: nat, s: seq<int>)
    requires base >= 2 && DigitsOk(base, s) && (s != [] ==> s[0] != 0)
    ensures Num(base, s) >= 0 && (s != [] ==> Num(base, s) > 0) && Digits(base, Num(base, s)) == s
  {
    if s != [] {
      var n := |s| - 1;
      NumNonNegative(base, s);
      DigitsOfNum(base, s[..n]);
      DivUnique(Num(base, s), base, Num(base, s[..n]), s[n]);
      if n == 0 {
        assert s[..0] == [];
      }
    }
  }

  lemma {:induction false} NumConcat(base: nat, a: seq<int>, b: seq<int>)
    ensures Num(base, a + b) == Num(base, a) * Pow(base, |b|) + Num(base, b)
    decreases |b|
  {
    if b == [] {
      assert a + b == a;
    } else {
      var n := |b| - 1;
      assert (a + b)[..|a + b| - 1] == a + b[..n];
      NumConcat(base, a, b[..n]);
      MulAdd(Num(base, a) * Pow(base, n), Num(base, b[..n]), base);
      MulAssoc(Num(base, a), Pow(base, n), base);
      MulComm(base, Pow(base, n));
    }
  }

  lemma {:induction false} NumBound(base: nat, s: seq<int>)
    requires DigitsOk(base, s)
    ensures 0 <= Num(base, s) < Pow(base, |s|)
  {
    if s != [] {
      var n := |s| - 1;
      NumBound(base, s[..n]);
      NextBound(Num(base, s[..n]), base, Pow(base, n), s[n]);
    }
  }

  lemma NextBound(x: nat, base: nat, p: nat, d: nat)
    requires x < p && d < base
    ensures 0 <= x * base + d < base * p
  {
    ProductMonotone(x + 1, p, base);
    MulAdd(x, 1, base);
    MulComm(base, p);
  }

  lemma {:induction false} NumZeros(base: nat, s: seq<int>)
    requires forall i | 0 <= i < |s| :: s[i] == 0
    ensures Num(base, s) == 0
  {
    if s != [] {
      NumZeros(base, s[..|s| - 1]);
    }
  }

  // ---------------------------------------------------------------- the buffers are large enough

  lemma {:induction false} PowBase(x: nat, y: nat, k: nat)
    requires x <= y
    ensures Pow(x, k) <= Pow(y, k) && (x < y && k > 0 ==> Pow(x, k) < Pow(y, k))
  {
    if k > 0 {
      PowBase(x, y, k - 1);
      MulMono(x, y, Pow(x, k - 1), Pow(y, k - 1));
      if x < y {
        MulAdd(x, 1, Pow(y, k - 1));
        ProductMonotone(x + 1, y, Pow(y, k - 1));
        MulMono(x, x, Pow(x, k - 1), Pow(y, k - 1));
        assert y > 0;
      }
    }
  }

  lemma SmallPowers()
    ensures Pow(58, 7) == 2207984167552 && Pow(2, 41) == 2199023255552 && Pow(58, 7) > Pow(2, 41) && Pow(2, 8) == 256
    ensures Pow(58, 4) == 11316496 && Pow(2, 1) == 2
  {
    assert Pow(2, 5) == 32;
    PowAdd(2, 5, 5);
    PowAdd(2, 10, 10);
    PowAdd(2, 20, 20);
    PowAdd(2, 40, 1);
    assert Pow(2, 1) == 2 && Pow(2, 3) == 8;
    PowAdd(2, 5, 3);
    assert Pow(58, 3) == 195112;
    PowAdd(58, 3, 3);
    PowAdd(58, 6, 1);
    assert Pow(58, 1) == 58;
  }

  lemma Power58()
    ensures Pow(58, 22) == 624332378391008467754527498760580235264
  {
    hide Pow;
    SmallPowers();
    PowAdd(58, 7, 4);
    PowAdd(58, 11, 11);
  }

  lemma Power2()
    ensures Pow(2, 129) == 680564733841876926926749214863536422912
  {
    hide Pow;
    Pow2Values();
    SmallPowers();
    PowAdd(2, 32, 32);
    assert Pow(2, 64) == TWO_64;
    PowAdd(2, 64, 64);
    PowAdd(2, 128, 1);
  }

  lemma LargePowers()
    ensures Pow(58, 22) <= Pow(2, 129)
  {
    hide Pow;
    Power58();
    Power2();
  }

  /** As many base-58 digits as the encoder reserves hold any number of that many bytes. */
  lemma EncodeFits(n: nat)
    ensures Pow(256, n) <= Pow(58, n * 138 / 100 + 1)
  {
    var s := n * 138 / 100 + 1;
    var x, y := Pow(256, n), Pow(58, s);
    if y < x {
      PowBase(y, x, 7);
      Seventh(n, s);
    }
  }

  lemma Seventh(n: nat, s: nat)
    requires 100 * s > 138 * n
    ensures Pow(Pow(256, n), 7) <= Pow(Pow(58, s), 7)
  {
    SmallPowers();
    PowMul(58, s, 7);
    PowMul(58, 7, s);
    MulComm(s, 7);
    PowBase(Pow(2, 41), Pow(58, 7), s);
    PowMul(2, 41, s);
    PowMul(256, n, 7);
    PowMul(2, 8, n * 7);
    PowMonotone(2, 8 * (n * 7), 41 * s);
  }

  /** As many bytes as the decoder reserves hold any number of that many base-58 digits. */
  lemma DecodeFits(n: nat)
    ensures Pow(58, n) <= Pow(256, n * 733 / 1000 + 1)
  {
    var s := n * 733 / 1000 + 1;
    var x, y := Pow(58, n), Pow(256, s);
    if y < x {
      PowBase(y, x, 22);
      TwentySecond(n, s);
    }
  }

  lemma TwentySecond(n: nat, s: nat)
    requires 1000 * s > 733 * n
    ensures Pow(Pow(58, n), 22) <= Pow(Pow(256, s), 22)
  {
    LargePowers();
    SmallPowers();
    PowMul(58, n, 22);
    PowMul(58, 22, n);
    MulComm(n, 22);
    PowBase(Pow(58, 22), Pow(2, 129), n);
    PowMul(2, 129, n);
    PowMul(256, s, 22);
    PowMul(2, 8, s * 22);
    PowMonotone(2, 129 * n, 8 * (s * 22));
  }

  // ---------------------------------------------------------------- multiply and add

  /** The buffer holds a number of exactly `length` digits, right-aligned. */
  ghost predicate Holds(base: nat, s: seq<int>, length: nat) {
    && DigitsOk(base, s) && length <= |s|
    && (forall i | 0 <= i < |s| - length :: s[i] == 0)
    && (length > 0 ==> s[|s| - length] != 0)
  }

  /** What the low i digits and the carry are worth while the loop is under way. */
  ghost predicate Carried(base: nat, factor: nat, digit: nat, before: seq<int>, now: seq<int>, i: nat, carry: nat) {
    && |now| == |before| && i <= |now| && DigitsOk(base, now)
    && now[..|now| - i] == before[..|now| - i]
    && Num(base, now[|now| - i..]) + carry * Pow(base, i) == Num(base, before[|now| - i..]) * factor + digit
  }

  /** The next digit takes `c` modulo the base, and the rest is carried on. */
  ghost predicate CarriedOn(base: nat, factor: nat, digit: nat, before: seq<int>, now: seq<int>, i: nat, c: nat)
    requires base >= 2 && i < |now|
  {
    Carried(base, factor, digit, before, now[|now| - 1 - i := c % base], i + 1, c / base)
  }

  lemma CarryStep(base: nat, factor: nat, digit: nat, before: seq<int>, now: seq<int>, i: nat, carry: nat)
    requires base >= 2 && DigitsOk(base, before) && Carried(base, factor, digit, before, now, i, carry) && i < |now|
    ensures var c := carry + factor * now[|now| - 1 - i];
            now[|now| - 1 - i] >= 0 && c >= carry && CarriedOn(base, factor, digit, before, now, i, c)
  {
    hide Num, Pow;
    var k := |now| - 1 - i;
    var d := now[k];
    NonNegativeProduct(factor, d);
    var c := carry + factor * d;
    var next := now[k := c % base];
    NumCons(base, next, k);
    NumCons(base, before, k);
    assert next[k + 1..] == now[k + 1..];
    assert next[..k] == now[..k] == before[..k];
    PowNext(base, i);
    CarryArithmetic(Pow(base, i), base, factor, digit, d, c, carry, Num(base, now[k + 1..]), Num(base, before[k + 1..]));
  }

  lemma NonNegativeProduct(a: nat, b: nat)
    ensures a * b >= 0
  {
  }

  lemma PowNext(base: nat, i: nat)
    ensures Pow(base, i + 1) == base * Pow(base, i)
  {
  }

  /** A suffix one digit longer. */
  lemma NumCons(base: nat, s: seq<int>, k: nat)
    requires k < |s|
    ensures Num(base, s[k..]) == s[k] * Pow(base, |s| - 1 - k) + Num(base, s[k + 1..])
  {
    assert s[k..] == [s[k]] + s[k + 1..];
    NumConcat(base, [s[k]], s[k + 1..]);
    SingleDigit(base, s[k]);
  }

  lemma SingleDigit(base: nat, d: int)
    ensures Num(base, [d]) == d
  {
    assert [d][..0] == [];
  }

  lemma CarryArithmetic(p: nat, base: nat, factor: nat, digit: nat, d: nat, c: nat, carry: nat, now: int, before: int)
    requires base >= 2 && c == carry + factor * d && now + carry * p == before * factor + digit
    ensures (c % base) * p + now + (c / base) * (base * p) == (d * p + before) * factor + digit
  {
    QuotientBounds(c, base);
    MulAssoc(c / base, base, p);
    MulAdd((c / base) * base, c % base, p);
    MulAdd(carry, factor * d, p);
    MulAdd(d * p, before, factor);
    MulAssoc(d, p, factor);
    MulComm(p, factor);
    MulAssoc(d, factor, p);
    MulComm(factor, d);
  }

  lemma TopDigit(base: nat, s: seq<int>)
    requires base >= 2 && DigitsOk(base, s) && s != []
    ensures s[0] != 0 <==> Num(base, s) >= Pow(base, |s| - 1)
  {
    assert s == [s[0]] + s[1..];
    NumConcat(base, [s[0]], s[1..]);
    SingleDigit(base, s[0]);
    NumBound(base, s[1..]);
    if s[0] != 0 {
      ProductMonotone(1, s[0], Pow(base, |s| - 1));
    } else {
      assert 0 * Pow(base, |s| - 1) == 0;
    }
  }

  /** Zeros in front do not count. */
  lemma NumOfTail(base: nat, s: seq<int>, k: nat)
    requires k <= |s| && forall i | 0 <= i < k :: s[i] == 0
    ensures Num(base, s) == Num(base, s[k..])
  {
    assert s == s[..k] + s[k..];
    NumConcat(base, s[..k], s[k..]);
    NumZeros(base, s[..k]);
    assert 0 * Pow(base, |s| - k) == 0;
  }

  /** The carry has run out when the buffer is large enough. */
  lemma CarryDone(base: nat, factor: nat, digit: nat, before: seq<int>, now: seq<int>, length: nat, i: nat, carry: nat)
    requires base >= 2 && factor >= 1 && Holds(base, before, length) && i >= length
    requires Carried(base, factor, digit, before, now, i, carry)
    requires i == |now| || carry == 0
    requires Num(base, before) * factor + digit < Pow(base, |before|)
    requires i > length ==> carry != 0 || now[|now| - i] != 0
    ensures carry == 0 && Num(base, now) == Num(base, before) * factor + digit && Holds(base, now, i)
  {
    hide Num, Pow;
    var k := |now| - i;
    forall j | 0 <= j < k ensures now[j] == 0 {
      assert now[..k][j] == before[..k][j];
    }
    NumOfTail(base, before, k);
    NumOfTail(base, now, k);
    NumBound(base, now[k..]);
    if i == |now| {
      NoCarryLeft(Num(base, now[k..]), carry, Pow(base, i));
    }
    assert carry * Pow(base, i) == 0;
    if i == length && i > 0 {
      TopDigit(base, before[k..]);
      NumNonNegative(base, before[k..]);
      Grows(Num(base, before[k..]), factor, digit);
      TopDigit(base, now[k..]);
    }
  }

  lemma NoCarryLeft(x: nat, carry: nat, p: nat)
    requires x + carry * p < p
    ensures carry == 0
  {
    if carry > 0 {
      ProductMonotone(1, carry, p);
    }
  }

  lemma Grows(x: nat, factor: nat, digit: nat)
    requires factor >= 1
    ensures x * factor + digit >= x
  {
    ProductMonotone(1, factor, x);
    MulComm(factor, x);
  }

  /** One more digit of the other base: the number in the buffer is multiplied and added to, in place. */
  method Accumulate(a: array<int>, base: nat, factor: nat, digit: nat, length: nat) returns (newLength: nat)
    requires base >= 2 && factor >= 1 && Holds(base, a[..], length)
    requires Num(base, a[..]) * factor + digit < Pow(base, a.Length)
    modifies a
    ensures Num(base, a[..]) == Num(base, old(a[..])) * factor + digit
    ensures length <= newLength && Holds(base, a[..], newLength)
  {
    hide Num, Pow, Carried, Holds, DigitsOk;
    ghost var before := a[..];
    var carry := digit;
    var i := 0;
    HoldsParts(base, before, length);
    CarryStart(base, factor, digit, before);
    while (carry != 0 || i < length) && i < a.Length
      invariant 0 <= i <= a.Length && 0 <= carry && Carried(base, factor, digit, before, a[..], i, carry)
      invariant i > length ==> carry != 0 || a[a.Length - i] != 0
      decreases a.Length - i
    {
      carry := CarryOnce(a, base, factor, digit, length, i, carry, before);
      i := i + 1;
    }
    CarryDone(base, factor, digit, before, a[..], length, i, carry);
    assert carry == 0;
    newLength := i;
  }

  method CarryOnce(a: array<int>, base: nat, factor: nat, ghost digit: nat, ghost length: nat, i: nat, carry: nat,
                   ghost before: seq<int>)
    returns (next: nat)
    requires base >= 2 && factor >= 1 && i < a.Length && Holds(base, before, length)
    requires Carried(base, factor, digit, before, a[..], i, carry) && (i >= length ==> carry != 0)
    modifies a
    ensures Carried(base, factor, digit, before, a[..], i + 1, next)
    ensures i >= length ==> next != 0 || a[a.Length - 1 - i] != 0
  {
    hide Num, Pow, Carried, Holds, DigitsOk;
    ghost var now := a[..];
    HoldsParts(base, before, length);
    CarryStep(base, factor, digit, before, now, i, carry);
    var k := a.Length - 1 - i;
    var c := carry + factor * a[k];
    a[k] := c % base;
    assert a[..] == now[k := c % base];
    next := c / base;
    if i >= length {
      QuotientBounds(c, base);
    }
  }

  lemma HoldsParts(base: nat, s: seq<int>, length: nat)
    requires Holds(base, s, length)
    ensures DigitsOk(base, s) && length <= |s|
  {
  }

  lemma CarryStart(base: nat, factor: nat, digit: nat, s: seq<int>)
    requires DigitsOk(base, s)
    ensures Carried(base, factor, digit, s, s, 0, digit)
  {
    assert s[|s|..] == [];
    assert 0 * factor == 0 && digit * Pow(base, 0) == digit;
  }

  /** The significant part of the buffer is the digits of the number. */
  lemma BufferDigits(base: nat, s: seq<int>, length: nat)
    requires base >= 2 && Holds(base, s, length)
    ensures Num(base, s) >= 0 && s[|s| - length..] == Digits(base, Num(base, s))
  {
    NumOfTail(base, s, |s| - length);
    DigitsOfNum(base, s[|s| - length..]);
  }

  // ---------------------------------------------------------------- characters

  const ONE: Byte := 49

  predicate IsSpace(c: int) { c == 32 || 9 <= c <= 13 }

  /** "123456789ABCDEFGHJKLMNPQRSTUVWXYZabcdefghijkmnopqrstuvwxyz", run by run. */
  function CharOf(d: int): (c: Byte)
    requires 0 <= d < 58
    ensures !IsSpace(c)
  {
    if d < 9 then 49 + d
    else if d < 17 then 65 + (d - 9)
    else if d < 22 then 74 + (d - 17)
    else if d < 33 then 80 + (d - 22)
    else if d < 44 then 97 + (d - 33)
    else 109 + (d - 44)
  }

  function DigitOf(c: int): (d: int)
    ensures -1 <= d < 58 && (d >= 0 ==> CharOf(d) == c) && (c == ONE <==> d == 0)
  {
    if 49 <= c <= 57 then c - 49
    else if 65 <= c <= 72 then 9 + (c - 65)
    else if 74 <= c <= 78 then 17 + (c - 74)
    else if 80 <= c <= 90 then 22 + (c - 80)
    else if 97 <= c <= 107 then 33 + (c - 97)
    else if 109 <= c <= 122 then 44 + (c - 109)
    else -1
  }

  lemma DigitOfChar(d: int)
    requires 0 <= d < 58
    ensures DigitOf(CharOf(d)) == d
  {
  }

  function Repeat(v: int, n: nat): (s: seq<int>)
    ensures |s| == n && forall i | 0 <= i < n :: s[i] == v
  {
    seq(n, _ => v)
  }

  /** How many elements at the front are equal to v. */
  function Leading(s: seq<int>, v: int): (n: nat)
    ensures n <= |s| && (forall i | 0 <= i < n :: s[i] == v) && (n < |s| ==> s[n] != v)
  {
    if s == [] || s[0] != v then 0 else 1 + Leading(s[1..], v)
  }

  lemma LeadingIs(s: seq<int>, v: int, n: nat)
    requires n <= |s| && (forall i | 0 <= i < n :: s[i] == v) && (n < |s| ==> s[n] != v)
    ensures Leading(s, v) == n
  {
    var m := Leading(s, v);
  }

  function Chars(digits: seq<int>): (s: seq<int>)
    requires DigitsOk(58, digits)
    ensures |s| == |digits| && forall i | 0 <= i < |s| :: s[i] == CharOf(digits[i])
  {
    seq(|digits|, i requires 0 <= i < |digits| => CharOf(digits[i]))
  }

  predicate Readable(s: seq<int>) {
    forall i | 0 <= i < |s| :: DigitOf(s[i]) >= 0
  }

  function Values(s: seq<int>): (digits: seq<int>)
    requires Readable(s)
    ensures |digits| == |s| && DigitsOk(58, digits) && forall i | 0 <= i < |s| :: digits[i] == DigitOf(s[i])
  {
    seq(|s|, i requires 0 <= i < |s| => DigitOf(s[i]))
  }

  predicate AllSpace(s: seq<int>) {
    forall i | 0 <= i < |s| :: IsSpace(s[i])
  }

  function SpacesBefore(s: seq<int>): (n: nat)
    ensures n <= |s| && (forall i | 0 <= i < n :: IsSpace(s[i])) && (n < |s| ==> !IsSpace(s[n]))
  {
    if s == [] || !IsSpace(s[0]) then 0 else 1 + SpacesBefore(s[1..])
  }

  function WordLength(s: seq<int>): (n: nat)
    ensures n <= |s| && (forall i | 0 <= i < n :: !IsSpace(s[i])) && (n < |s| ==> IsSpace(s[n]))
  {
    if s == [] || IsSpace(s[0]) then 0 else 1 + WordLength(s[1..])
  }

  // ---------------------------------------------------------------- what the functions compute

  ghost function Encoded(input: seq<int>): seq<int>
    requires DigitsOk(256, input)
  {
    var z := Leading(input, 0);
    NumNonNegative(256, input[z..]);
    Repeat(ONE, z) + Chars(Digits(58, Num(256, input[z..])))
  }

  /** The bytes a word of base-58 characters stands for. */
  ghost function WordValue(word: seq<int>): seq<int>
    requires Readable(word)
  {
    var z := Leading(word, ONE);
    NumNonNegative(58, Values(word[z..]));
    Repeat(0, z) + Digits(256, Num(58, Values(word[z..])))
  }

  /** One word, with spaces around it; nothing else. */
  ghost function Decoded(str: seq<int>): Option<seq<int>> {
    var rest := str[SpacesBefore(str)..];
    var n := WordLength(rest);
    if Readable(rest[..n]) && AllSpace(rest[n..]) then Some(WordValue(rest[..n])) else None
  }

  lemma ValuesOfChars(digits: seq<int>)
    requires DigitsOk(58, digits)
    ensures Readable(Chars(digits)) && Values(Chars(digits)) == digits
  {
    forall i | 0 <= i < |digits| ensures DigitOf(Chars(digits)[i]) == digits[i] {
      DigitOfChar(digits[i]);
    }
  }

  /** Whatever is encoded comes back. */
  lemma DecodeEncode(input: seq<int>)
    requires DigitsOk(256, input)
    ensures Decoded(Encoded(input)) == Some(input)
  {
    hide WordValue, SpacesBefore, WordLength;
    var z := Leading(input, 0);
    NumNonNegative(256, input[z..]);
    var digits := Digits(58, Num(256, input[z..]));
    WordOnly(Encoded(input), z, digits);
    EncodedValue(input);
  }

  lemma EncodedValue(input: seq<int>)
    requires DigitsOk(256, input)
    ensures Readable(Encoded(input)) && WordValue(Encoded(input)) == input
  {
    hide Num, Digits, Leading, WordValue, Chars;
    var z := Leading(input, 0);
    var tail := input[z..];
    NumNonNegative(256, tail);
    var n := Num(256, tail);
    var digits := Digits(58, n);
    WordOnly(Encoded(input), z, digits);
    NumOfDigits(58, n);
    ValueOfWord(Encoded(input), z, digits);
    DigitsOfNum(256, tail);
    assert Repeat(0, z) == input[..z];
  }

  lemma ValueOfWord(word: seq<int>, z: nat, digits: seq<int>)
    requires DigitsOk(58, digits) && (digits != [] ==> digits[0] != 0) && word == Repeat(ONE, z) + Chars(digits) && Readable(word)
    ensures Num(58, digits) >= 0 && WordValue(word) == Repeat(0, z) + Digits(256, Num(58, digits))
  {
    hide Num, Digits, Leading;
    NumNonNegative(58, digits);
    ValuesOfChars(digits);
    WordOnly(word, z, digits);
    assert word[z..] == Chars(digits);
    LeadingIs(word, ONE, z);
  }

  lemma WordOnly(word: seq<int>, z: nat, digits: seq<int>)
    requires DigitsOk(58, digits) && word == Repeat(ONE, z) + Chars(digits)
    ensures Readable(word) && SpacesBefore(word) == 0 && WordLength(word) == |word|
    ensures Decoded(word) == Some(WordValue(word)) && (digits != [] && digits[0] != 0 ==> word[z] != ONE)
  {
    hide WordValue, Num, Digits;
    forall i | 0 <= i < |word| ensures DigitOf(word[i]) >= 0 && !IsSpace(word[i]) {
      if i >= z {
        DigitOfChar(digits[i - z]);
      }
    }
    if digits != [] {
      DigitOfChar(digits[0]);
    }
    assert word[0..] == word && word[..|word|] == word && word[|word|..] == [];
  }

  /** A word without spaces that can be read is the one encoding of its value. */
  lemma EncodeDecode(word: seq<int>)
    requires Readable(word)
    ensures DigitsOk(256, WordValue(word)) && Encoded(WordValue(word)) == word
  {
    hide Num, Digits, Leading;
    var z := Leading(word, ONE);
    var tail := Values(word[z..]);
    NumNonNegative(58, tail);
    var n := Num(58, tail);
    var bytes := Digits(256, n);
    var value := WordValue(word);
    assert value[..z] == Repeat(0, z) && value[z..] == bytes;
    LeadingIs(value, 0, z);
    NumOfDigits(256, n);
    DigitsOfNum(58, tail);
    assert Chars(tail) == word[z..];
    assert Repeat(ONE, z) == word[..z];
  }

  // ---------------------------------------------------------------- the loops

  /** Adds one digit after another to the buffer. */
  ghost predicate Reading(from: nat, base: nat, buffer: seq<int>, length: nat, read: seq<int>) {
    DigitsOk(from, read) && Holds(base, buffer, length) && Num(base, buffer) == Num(from, read)
  }

  lemma ReadingStart(from: nat, base: nat, size: nat)
    requires base >= 2
    ensures Reading(from, base, Repeat(0, size), 0, [])
  {
    NumZeros(base, Repeat(0, size));
  }

  method ReadDigit(a: array<int>, from: nat, base: nat, digit: nat, length: nat, ghost read: seq<int>) returns (newLength: nat)
    requires from >= 1 && base >= 2 && digit < from && Reading(from, base, a[..], length, read)
    requires Pow(from, |read| + 1) <= Pow(base, a.Length)
    modifies a
    ensures Reading(from, base, a[..], newLength, read + [digit]) && length <= newLength
  {
    hide Pow, Holds, Num;
    NumNext(from, read, digit);
    newLength := Accumulate(a, base, from, digit, length);
  }

  lemma NumNext(base: nat, s: seq<int>, d: int)
    requires DigitsOk(base, s) && 0 <= d < base
    ensures Num(base, s + [d]) == Num(base, s) * base + d < Pow(base, |s| + 1)
  {
    assert (s + [d])[..|s|] == s;
    NumBound(base, s + [d]);
  }

  lemma FitsPrefix(from: nat, base: nat, n: nat, m: nat, size: nat)
    requires from >= 1 && n <= m && Pow(from, m) <= Pow(base, size)
    ensures Pow(from, n) <= Pow(base, size)
  {
    PowMonotone(from, n, m);
  }

  method EncodeBase58(input: seq<Byte>) returns (str: seq<int>)
    ensures str == Encoded(input)
  {
    hide Pow, Num, Leading, Digits;
    var zeroes := 0;
    while zeroes < |input| && input[zeroes] == 0
      invariant 0 <= zeroes <= |input| && forall i | 0 <= i < zeroes :: input[i] == 0
    {
      zeroes := zeroes + 1;
    }
    LeadingIs(input, 0, zeroes);
    var b58, it := ConvertTo58(input[zeroes..]);
    ghost var digits := b58[it..];
    ghost var start := it;
    str := Repeat(ONE, zeroes);
    while it < b58.Length
      invariant start <= it <= b58.Length && str == Repeat(ONE, zeroes) + Chars(digits)[..it - start]
    {
      assert b58[it] == digits[it - start];
      str := str + [CharOf(b58[it])];
      it := it + 1;
    }
    assert Chars(digits)[..|digits|] == Chars(digits);
  }

  /** The digits of a number of bytes, at the end of a buffer. */
  method ConvertTo58(input: seq<Byte>) returns (b58: array<int>, it: nat)
    ensures fresh(b58) && it <= b58.Length && Num(256, input) >= 0 && b58[it..] == Digits(58, Num(256, input))
  {
    hide Pow, Holds, Num, Reading, Digits;
    var size := |input| * 138 / 100 + 1;
    EncodeFits(|input|);
    b58 := new int[size](_ => 0);
    assert b58[..] == Repeat(0, size);
    ReadingStart(256, 58, size);
    var length := 0;
    var k := 0;
    assert input[..0] == [];
    while k < |input|
      invariant 0 <= k <= |input| && Reading(256, 58, b58[..], length, input[..k])
    {
      FitsPrefix(256, 58, k + 1, |input|, size);
      length := ReadDigit(b58, 256, 58, input[k], length, input[..k]);
      assert input[..k] + [input[k]] == input[..k + 1];
      k := k + 1;
    }
    assert input[..|input|] == input;
    LengthInside(256, 58, b58[..], length, input);
    it := size - length;
    while it < size && b58[it] == 0
      invariant size - length <= it <= size && forall i | size - length <= i < it :: b58[i] == 0
    {
      it := it + 1;
    }
    BufferNumber(256, 58, b58[..], length, input);
    ghost var digits := b58[size - length..];
    assert length > 0 ==> digits[0] == b58[size - length];
    assert it == size - length;
  }

  lemma LengthInside(from: nat, base: nat, s: seq<int>, length: nat, read: seq<int>)
    requires Reading(from, base, s, length, read)
    ensures length <= |s|
  {
  }

  lemma BufferNumber(from: nat, base: nat, s: seq<int>, length: nat, read: seq<int>)
    requires base >= 2 && Reading(from, base, s, length, read)
    ensures length <= |s| && Num(from, read) >= 0 && s[|s| - length..] == Digits(base, Num(from, read))
  {
    BufferDigits(base, s, length);
  }

  ghost function Limited(r: Option<seq<int>>, maxRetLen: nat): Option<seq<int>> {
    if r.Some? && |r.value| > maxRetLen then None else r
  }

  method SkipSpaces(s: seq<int>) returns (n: nat)
    ensures n == SpacesBefore(s)
  {
    n := 0;
    while n < |s| && IsSpace(s[n])
      invariant n <= |s| && forall i | 0 <= i < n :: IsSpace(s[i])
    {
      n := n + 1;
    }
    SpacesAre(s, n);
  }

  lemma SpacesAre(s: seq<int>, n: nat)
    requires n <= |s| && (forall i | 0 <= i < n :: IsSpace(s[i])) && (n < |s| ==> !IsSpace(s[n]))
    ensures SpacesBefore(s) == n
  {
    var m := SpacesBefore(s);
  }

  lemma WordIs(s: seq<int>, n: nat)
    requires n <= |s| && (forall i | 0 <= i < n :: !IsSpace(s[i])) && (n < |s| ==> IsSpace(s[n]))
    ensures WordLength(s) == n
  {
    var m := WordLength(s);
  }

  lemma {:induction false} DigitsGrow(base: nat, m: nat, n: nat)
    requires base >= 2 && m <= n
    ensures |Digits(base, m)| <= |Digits(base, n)|
    decreases n
  {
    if m > 0 {
      QuotientMonotone(m, n, base);
      QuotientSmaller(n, base);
      DigitsGrow(base, m / base, n / base);
    }
  }

  lemma QuotientSmaller(n: nat, base: nat)
    requires base >= 2 && n > 0
    ensures n / base < n
  {
    ProductMonotone(2, base, n);
    MulComm(base, n);
    DivBelow(n, base, n);
  }

  lemma QuotientMonotone(m: nat, n: nat, base: nat)
    requires base >= 2 && m <= n
    ensures m / base <= n / base
  {
    QuotientBounds(n, base);
    MulAdd(n / base, 1, base);
    DivBelow(m, base, n / base + 1);
  }

  lemma {:induction false} NumGrows(base: nat, s: seq<int>, k: nat)
    requires base >= 1 && DigitsOk(base, s) && k <= |s|
    ensures 0 <= Num(base, s[..k]) <= Num(base, s)
    decreases |s| - k
  {
    NumNonNegative(base, s[..k]);
    if k < |s| {
      NumGrows(base, s, k + 1);
      assert s[..k + 1][..k] == s[..k];
      Grows(Num(base, s[..k]), base, s[k]);
    } else {
      assert s[..k] == s;
    }
  }

  /** The length never shrinks, so a value that is too long early is too long in the end. */
  lemma TooLong(values: seq<int>, k: nat, buffer: seq<int>, length: nat)
    requires DigitsOk(58, values) && k <= |values| && Reading(58, 256, buffer, length, values[..k])
    ensures 0 <= Num(58, values) && length <= |Digits(256, Num(58, values))|
  {
    hide Num, Digits;
    BufferNumber(58, 256, buffer, length, values[..k]);
    NumGrows(58, values, k);
    DigitsGrow(256, Num(58, values[..k]), Num(58, values));
  }

  /** Reads the digits of a word up to a space, an unknown character or too long a value. */
  method ReadWord(rest: seq<int>, zeroes: nat, maxRetLen: nat) returns (ok: bool, n: nat, bytes: seq<int>)
    requires zeroes == Leading(rest, ONE) && zeroes <= maxRetLen
    ensures ok <==> Readable(rest[..WordLength(rest)]) && |WordValue(rest[..WordLength(rest)])| <= maxRetLen
    ensures ok ==> n == WordLength(rest) && bytes == WordValue(rest[..n])
  {
    hide Pow, Num, Leading, Reading, Digits, WordLength, Values, WordValue, Readable, DigitOf;
    var size := (|rest| - zeroes) * 733 / 1000 + 1;
    DecodeFits(|rest| - zeroes);
    var b256 := new int[size](_ => 0);
    var long, length;
    ghost var read;
    ok, long, n, length, read := ReadSymbols(rest, zeroes, maxRetLen, b256);
    bytes := [];
    if !ok {
      NotReadable(rest, n);
    } else {
      WordKnown(rest, zeroes, n, read, b256[..], length);
      if long {
        ok := false;
      } else {
        WordIs(rest, n);
        bytes := Repeat(0, zeroes) + b256[size - length..];
      }
    }
  }

  /** Reads up to a space, an unknown character or a result that is too long. */
  method ReadSymbols(rest: seq<int>, zeroes: nat, maxRetLen: nat, b256: array<int>)
    returns (ok: bool, long: bool, n: nat, length: nat, ghost read: seq<int>)
    requires zeroes == Leading(rest, ONE) && zeroes <= maxRetLen && (forall i | 0 <= i < b256.Length :: b256[i] == 0)
    requires Pow(58, |rest| - zeroes) <= Pow(256, b256.Length)
    modifies b256
    ensures zeroes <= n <= |rest| && forall i | 0 <= i < n :: !IsSpace(rest[i])
    ensures ok ==> Readable(rest[..n]) && Readable(rest[zeroes..n])
    ensures ok ==> read == Values(rest[zeroes..n]) && Reading(58, 256, b256[..], length, read)
    ensures ok ==> (long <==> length + zeroes > maxRetLen) && (long || n == |rest| || IsSpace(rest[n]))
    ensures !ok ==> n < |rest| && DigitOf(rest[n]) < 0 && !IsSpace(rest[n])
  {
    hide Pow, Num, Leading, Reading, Digits;
    n, length, ok, long, read := zeroes, 0, true, false, [];
    assert b256[..] == Repeat(0, b256.Length);
    ReadingStart(58, 256, b256.Length);
    assert Readable(rest[..n]) && Readable(rest[n..n]) && Values(rest[n..n]) == read;
    hide Readable, DigitOf, Values;
    while n < |rest| && !IsSpace(rest[n]) && ok && !long
      invariant zeroes <= n <= |rest| && forall i | 0 <= i < n :: !IsSpace(rest[i])
      invariant ok ==> Readable(rest[..n]) && Readable(rest[zeroes..n])
      invariant ok ==> read == Values(rest[zeroes..n]) && Reading(58, 256, b256[..], length, read)
      invariant ok ==> (long <==> length + zeroes > maxRetLen)
      invariant !ok ==> n < |rest| && DigitOf(rest[n]) < 0 && !IsSpace(rest[n])
      decreases |rest| - n, ok
    {
      var carry := DigitOf(rest[n]);
      if carry == -1 {
        ok := false;
      } else {
        ValuesNext(rest, zeroes, n);
        FitsPrefix(58, 256, |read| + 1, |rest| - zeroes, b256.Length);
        length := ReadDigit(b256, 58, 256, carry, length, read);
        read := read + [carry];
        long := length + zeroes > maxRetLen;
        n := n + 1;
      }
    }
  }

  lemma NotReadable(rest: seq<int>, n: nat)
    requires n < |rest| && (forall i | 0 <= i <= n :: !IsSpace(rest[i])) && DigitOf(rest[n]) < 0
    ensures !Readable(rest[..WordLength(rest)])
  {
    var m := WordLength(rest);
    assert rest[..m][n] == rest[n];
  }

  lemma ValuesNext(rest: seq<int>, z: nat, n: nat)
    requires z <= n < |rest| && Readable(rest[..n]) && DigitOf(rest[n]) >= 0
    ensures Readable(rest[z..n]) && Readable(rest[..n + 1]) && Readable(rest[z..n + 1])
    ensures Values(rest[z..n + 1]) == Values(rest[z..n]) + [DigitOf(rest[n])]
  {
    var word, tail := rest[..n + 1], rest[z..n + 1];
    forall i | 0 <= i < |word| ensures DigitOf(word[i]) >= 0 {
      assert i < n ==> word[i] == rest[..n][i];
    }
    forall i | 0 <= i < |tail| ensures DigitOf(tail[i]) >= 0 {
      assert tail[i] == word[i + z];
    }
    assert rest[z..n + 1] == rest[z..n] + [rest[n]];
  }

  /** What is known of the whole word when its first n characters are read. */
  lemma WordKnown(rest: seq<int>, z: nat, n: nat, read: seq<int>, buffer: seq<int>, length: nat)
    requires z == Leading(rest, ONE) <= n <= |rest| && (forall i | 0 <= i < n :: !IsSpace(rest[i])) && Readable(rest[..n])
    requires Readable(rest[z..n]) && read == Values(rest[z..n]) && Reading(58, 256, buffer, length, read)
    ensures var word := rest[..WordLength(rest)];
            && (Readable(word) ==> length + z <= |WordValue(word)|) && length <= |buffer|
            && (n == |rest| || IsSpace(rest[n]) ==> Readable(word) && WordValue(word) == Repeat(0, z) + buffer[|buffer| - length..])
  {
    hide Num, Digits, Reading, Leading, Readable, WordValue, WordLength, Values;
    LengthInside(58, 256, buffer, length, read);
    if Readable(rest[..WordLength(rest)]) {
      WordNotShorter(rest, z, n, read, buffer, length);
    }
    if n == |rest| || IsSpace(rest[n]) {
      WordIs(rest, n);
      WordRead(rest[..n], z, read, buffer, length);
    }
  }

  /** What has been read is at most as long as the whole word will be. */
  lemma WordNotShorter(rest: seq<int>, z: nat, n: nat, read: seq<int>, buffer: seq<int>, length: nat)
    requires z == Leading(rest, ONE) <= n <= |rest| && forall i | 0 <= i < n :: !IsSpace(rest[i])
    requires Readable(rest[z..n]) && read == Values(rest[z..n]) && Reading(58, 256, buffer, length, read)
    requires Readable(rest[..WordLength(rest)])
    ensures length + z <= |WordValue(rest[..WordLength(rest)])|
  {
    hide Num, Digits, Reading, Leading, WordLength, Readable, Values, WordValue;
    var word := rest[..WordLength(rest)];
    assert n <= |word|;
    LeadingIs(word, ONE, z);
    assert word[z..n] == rest[z..n];
    WordLonger(word, z, n, buffer, length);
  }

  lemma WordLonger(word: seq<int>, z: nat, n: nat, buffer: seq<int>, length: nat)
    requires z == Leading(word, ONE) <= n <= |word| && Readable(word)
    requires Readable(word[z..n]) && Reading(58, 256, buffer, length, Values(word[z..n]))
    ensures length + z <= |WordValue(word)|
  {
    hide Num, Digits, Reading, Leading;
    var values := Values(word[z..]);
    assert values[..n - z] == Values(word[z..n]);
    NumNonNegative(58, values);
    TooLong(values, n - z, buffer, length);
  }

  lemma WordRead(word: seq<int>, z: nat, read: seq<int>, buffer: seq<int>, length: nat)
    requires z == Leading(word, ONE) <= |word| && Readable(word)
    requires Readable(word[z..]) && read == Values(word[z..]) && Reading(58, 256, buffer, length, read)
    ensures length <= |buffer| && WordValue(word) == Repeat(0, z) + buffer[|buffer| - length..]
  {
    hide Num, Digits, Reading, Leading;
    BufferNumber(58, 256, buffer, length, read);
  }

  method DecodeBase58(str: seq<Byte>, maxRetLen: nat) returns (r: Option<seq<int>>)
    ensures r == Limited(Decoded(str), maxRetLen)
  {
    hide WordValue, Readable, SpacesBefore, WordLength, AllSpace, Leading;
    var start := SkipSpaces(str);
    var rest := str[start..];
    var zeroes := 0;
    while zeroes < |rest| && rest[zeroes] == ONE && zeroes <= maxRetLen
      invariant 0 <= zeroes <= |rest| && zeroes <= maxRetLen + 1 && forall i | 0 <= i < zeroes :: rest[i] == ONE
    {
      zeroes := zeroes + 1;
    }
    r := None;
    if zeroes > maxRetLen {
      TooManyOnes(rest, zeroes);
    } else {
      LeadingIs(rest, ONE, zeroes);
      var ok, n, bytes := ReadWord(rest, zeroes, maxRetLen);
      if ok {
        var spaces := SkipSpaces(rest[n..]);
        AllSpaceIs(rest[n..]);
        if n + spaces == |rest| {
          r := Some(bytes);
        }
      }
    }
  }

  lemma AllSpaceIs(s: seq<int>)
    ensures AllSpace(s) <==> SpacesBefore(s) == |s|
  {
    var n := SpacesBefore(s);
  }

  lemma TooManyOnes(rest: seq<int>, zeroes: nat)
    requires zeroes <= |rest| && forall i | 0 <= i < zeroes :: rest[i] == ONE
    ensures var word := rest[..WordLength(rest)];
            Readable(word) ==> |WordValue(word)| >= zeroes
  {
    var word := rest[..WordLength(rest)];
    var m := Leading(word, ONE);
    assert WordLength(rest) >= zeroes;
  }

  // ---------------------------------------------------------------- with a checksum

  const CHECKSUM_SIZE := 4

  type Checksum = s: seq<Byte> | |s| == 4 witness [0, 0, 0, 0]

  method EncodeBase58Check(input: seq<Byte>, hash: seq<Byte> -> Checksum) returns (str: seq<int>)
    ensures str == Encoded(input + hash(input))
  {
    str := EncodeBase58(input + hash(input));
  }

  /** The data before the last four bytes, if those are its checksum. */
  ghost function Checked(r: Option<seq<int>>, hash: seq<Byte> -> Checksum): Option<seq<int>> {
    if r.None? || |r.value| < CHECKSUM_SIZE || !DigitsOk(256, r.value) then None
    else
      var n := |r.value| - CHECKSUM_SIZE;
      if r.value[n..] == hash(r.value[..n]) then Some(r.value[..n]) else None
  }

  method DecodeBase58Check(str: seq<Byte>, hash: seq<Byte> -> Checksum, maxRetLen: nat) returns (r: Option<seq<int>>)
    ensures r == Limited(Checked(Decoded(str), hash), maxRetLen)
  {
    r := DecodeBase58(str, maxRetLen + CHECKSUM_SIZE);
    DecodedBytes(str);
    if r.Some? {
      if |r.value| < CHECKSUM_SIZE {
        r := None;
      } else {
        var n := |r.value| - CHECKSUM_SIZE;
        r := if hash(r.value[..n]) != r.value[n..] then None else Some(r.value[..n]);
      }
    }
  }

  lemma DecodedBytes(str: seq<int>)
    ensures Decoded(str).Some? ==> DigitsOk(256, Decoded(str).value)
  {
    if Decoded(str).Some? {
      var rest := str[SpacesBefore(str)..];
      EncodeDecode(rest[..WordLength(rest)]);
    }
  }

  /** Data encoded with its checksum comes back, and comes back without it. */
  lemma CheckRoundTrip(input: seq<Byte>, hash: seq<Byte> -> Checksum)
    ensures Checked(Decoded(Encoded(input + hash(input))), hash) == Some(input)
  {
    var all := input + hash(input);
    DecodeEncode(all);
    assert all[..|input|] == input && all[|input|..] == hash(input);
  }
}
