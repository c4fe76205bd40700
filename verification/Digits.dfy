/** Decimal digits in text: their value, and the trick that reads eight of them at once. */
module Digits {
  import opened Powers
  import opened Bits
  import opened Bytes

  type Text = seq<byte>

  predicate IsDigit(c: byte) {
    48 <= c <= 57
  }

  function DigitOf(c: byte): int {
    c as int - 48
  }

  ghost predicate AllDigits(s: Text) {
    forall i :: 0 <= i < |s| ==> IsDigit(s[i])
  }

  /** The number that a run of digits spells, most significant digit first. */
  ghost function DecVal(s: Text): int {
    if |s| == 0 then 0 else 10 * DecVal(s[..|s| - 1]) + DigitOf(s[|s| - 1])
  }

  const MINUS: byte := 45
  const ZERO: byte := 48

  /** Where the run of digits that starts at from ends. */
  function DigitsEnd(text: Text, from: nat): (e: nat)
    requires from <= |text|
    ensures from <= e <= |text|
    decreases |text| - from
  {
    if from == |text| || !IsDigit(text[from]) then from else DigitsEnd(text, from + 1)
  }

  function Start(text: Text): (b: nat)
    ensures b <= |text|
  {
    if |text| > 0 && text[0] == MINUS then 1 else 0
  }

  lemma DecValPush(s: Text, c: byte)
    ensures DecVal(s + [c]) == 10 * DecVal(s) + DigitOf(c)
  {
    assert (s + [c])[..|s|] == s;
  }

  lemma {:induction false} DecValConcat(a: Text, b: Text)
    ensures DecVal(a + b) == DecVal(a) * Pow(10, |b|) + DecVal(b)
  {
    hide DecVal, Pow;
    PowNone(10);
    if |b| == 0 {
      assert a + b == a;
      DecValOfNone(b);
    } else {
      var m := |b| - 1;
      assert a + b == (a + b[..m]) + [b[m]] && b == b[..m] + [b[m]];
      DecValPush(a + b[..m], b[m]);
      DecValPush(b[..m], b[m]);
      DecValConcat(a, b[..m]);
      PowNext(10, m);
      TimesTen(DecVal(a), Pow(10, m));
    }
  }

  lemma TimesTen(x: int, y: int)
    ensures 10 * (x * y) == x * (10 * y)
  {
  }

  lemma {:induction false} DecValBound(s: Text)
    requires AllDigits(s)
    ensures 0 <= DecVal(s) < Pow(10, |s|)
  {
    if |s| != 0 {
      DecValBound(s[..|s| - 1]);
    }
  }

  // ---------- bitwise operations byte by byte

  lemma {:induction false} OrSplit(k: nat, a: nat, b: nat, c: nat, d: nat, x: nat, y: nat)
    requires a < Pow2(k) && c < Pow2(k)
    requires x == a + b * Pow2(k) && y == c + d * Pow2(k)
    ensures Or(x, y) == Or(a, c) + Or(b, d) * Pow2(k)
  {
    if k == 0 {
      assert x == b && y == d;
    } else {
      var p := Pow2(k - 1);
      Doubled(a, b, p);
      Doubled(c, d, p);
      OrSplit(k - 1, a / 2, b, c / 2, d, x / 2, y / 2);
      OrSplitStep(a, c, x, y, Or(b, d) * p);
      TimesDouble(Or(b, d), p, Pow2(k));
    }
  }

  lemma OrSplitStep(a: nat, c: nat, x: nat, y: nat, high: int)
    requires x % 2 == a % 2 && y % 2 == c % 2
    requires Or(x / 2, y / 2) == Or(a / 2, c / 2) + high
    ensures Or(x, y) == Or(a, c) + 2 * high
  {
    OrStep(x, y);
    OrStep(a, c);
  }

  lemma {:induction false} OrBound(k: nat, x: nat, y: nat)
    requires x < Pow2(k) && y < Pow2(k)
    ensures Or(x, y) < Pow2(k)
  {
    if k != 0 {
      OrBound(k - 1, x / 2, y / 2);
      OrStep(x, y);
    } else {
      assert x == 0 && y == 0;
    }
  }

  lemma Pow2Values()
    ensures Pow2(1) == 2 && Pow2(7) == 128 && Pow2(8) == 256
  {
    assert Pow2(4) == 16;
    PowAdd(2, 4, 4);
  }

  /** Bytes and the rest of a word are combined separately. */
  lemma ByteSplit(a: nat, b: nat, c: nat, d: nat)
    requires a < 256 && c < 256
    ensures And(a + 256 * b, c + 256 * d) == And(a, c) + 256 * And(b, d)
    ensures Or(a + 256 * b, c + 256 * d) == Or(a, c) + 256 * Or(b, d)
    ensures Or(a, c) < 256
  {
    hide And, Or;
    Pow2Values();
    AndSplit(8, a, b, c, d, a + 256 * b, c + 256 * d);
    OrSplit(8, a, b, c, d, a + 256 * b, c + 256 * d);
    OrBound(8, a, c);
  }

  /** The top bit of a byte. */
  lemma TopBit(x: nat)
    requires x < 256
    ensures And(x, 128) == (if x < 128 then 0 else 128)
  {
    hide And;
    Pow2Values();
    var h := x / 128;
    AndSplit(7, x % 128, h, 0, 1, x, 128);
    AndZero(x % 128);
    AndLowMask(h, 1);
  }

  lemma TopBitOfOr(a: nat, b: nat)
    requires a < 256 && b < 256
    ensures Or(a, b) < 256
    ensures Or(a, b) < 128 <==> a < 128 && b < 128
  {
    hide Or;
    Pow2Values();
    OrSplit(7, a % 128, a / 128, b % 128, b / 128, a, b);
    OrBound(7, a % 128, b % 128);
    OrBound(1, a / 128, b / 128);
    assert Or(a / 128, b / 128) == 0 <==> a / 128 == 0 && b / 128 == 0 by {
      OrZero(a / 128, b / 128);
    }
  }

  lemma OrZero(a: nat, b: nat)
    requires a <= 1 && b <= 1
    ensures Or(a, b) == 0 <==> a == 0 && b == 0
  {
  }

  // ---------- the test for eight digits

  /** k bytes of the same value. */
  function Repeated(b: nat, k: nat): nat {
    if k == 0 then 0 else b + 256 * Repeated(b, k - 1)
  }

  function WrapSub(x: int, y: int, m: int): int
    requires 0 < m
  {
    (x - y) % m
  }

  /** is_made_of_eight_digits_fast on words of k bytes. */
  predicate MadeOfDigits(val: int, k: nat)
    requires 0 <= val
  {
    PowerOfBytes(k);
    And(Or((val + Repeated(0x46, k)) % Pow(256, k), WrapSub(val, Repeated(0x30, k), Pow(256, k))), Repeated(0x80, k)) == 0
  }

  lemma PowerOfBytes(k: nat)
    ensures 0 < Pow(256, k)
  {
  }

  lemma ModOfBytes(x: int, h: int, p: int)
    requires 0 < p && 0 <= x < 256
    ensures (x + 256 * h) % (256 * p) == x + 256 * (h % p)
  {
    DivModSplit(h, p);
    var q, r := h / p, h % p;
    assert q * (256 * p) == 256 * (q * p);
    DivModUnique(x + 256 * h, 256 * p, q, x + 256 * r);
  }

  /** The lowest byte that is not a digit sets the tested bit, whatever carries leave it. */
  lemma {:induction false} MadeOfDigitsIsCorrect(s: Text)
    ensures MadeOfDigits(Le(s), |s|) <==> AllDigits(s)
  {
    var k := |s|;
    if k == 0 {
      AndZero(Or(0, 0));
    } else {
      var x, t := s[0], s[1..];
      MadeOfDigitsIsCorrect(t);
      LowestByte(x, Le(t), k - 1);
      assert AllDigits(s) <==> IsDigit(x) && AllDigits(t);
    }
  }

  /** Adding a byte pattern to a word: the low byte, and the rest with the carry. */
  lemma ShiftedByte(x: int, rest: int, low: int, high: int, p: int)
    requires 0 < p
    ensures (x + 256 * rest + low + 256 * high) % (256 * p)
            == (x + low) % 256 + 256 * ((rest + high + (x + low) / 256) % p)
  {
    ModOfBytes((x + low) % 256, rest + high + (x + low) / 256, p);
  }

  lemma LowestByte(x: byte, rest: nat, k: nat)
    ensures MadeOfDigits(x + 256 * rest, k + 1) <==> IsDigit(x) && MadeOfDigits(rest, k)
  {
    hide *;
    var p: int, h46: int, h30: int, h80 := Pow(256, k), Repeated(0x46, k), Repeated(0x30, k), Repeated(0x80, k);
    PowerOfBytes(k);
    var ca, cb := (x + 0x46) / 256, (x - 0x30) / 256;
    var a, b := (x + 0x46) % 256, (x - 0x30) % 256;
    var ha, hb := (rest + h46 + ca) % p, (rest - h30 + cb) % p;
    ShiftedByte(x, rest, 0x46, h46, p);
    ShiftedByte(x, rest, -0x30, -h30, p);
    MadeOfDigitsStep(x + 256 * rest, k, a + 256 * ha, b + 256 * hb);
    ByteTest(a, b, ha, hb, h80);
    DigitRange(x);
    if IsDigit(x) {
      MadeOfDigitsHere(rest, k, ha, hb);
    }
  }

  lemma MadeOfDigitsHere(val: nat, k: nat, u: nat, v: nat)
    requires 0 < Pow(256, k)
    requires u == (val + Repeated(0x46, k)) % Pow(256, k) && v == (val - Repeated(0x30, k)) % Pow(256, k)
    ensures MadeOfDigits(val, k) <==> And(Or(u, v), Repeated(0x80, k)) == 0
  {
    hide And, Or;
  }

  lemma MadeOfDigitsStep(val: nat, k: nat, u: nat, v: nat)
    requires 0 < Pow(256, k)
    requires u == (val + 0x46 + 256 * Repeated(0x46, k)) % (256 * Pow(256, k))
    requires v == (val - 0x30 - 256 * Repeated(0x30, k)) % (256 * Pow(256, k))
    ensures MadeOfDigits(val, k + 1) <==> And(Or(u, v), 0x80 + 256 * Repeated(0x80, k)) == 0
  {
    hide And, Or;
  }

  lemma DigitRange(x: byte)
    ensures IsDigit(x) <==> (x + 0x46) % 256 < 128 && (x - 0x30) % 256 < 128
    ensures IsDigit(x) ==> (x + 0x46) / 256 == 0 && (x - 0x30) / 256 == 0
  {
  }

  lemma ByteTest(a: nat, b: nat, ha: nat, hs: nat, h80: nat)
    requires a < 256 && b < 256
    ensures And(Or(a + 256 * ha, b + 256 * hs), 0x80 + 256 * h80) == 0
            <==> a < 128 && b < 128 && And(Or(ha, hs), h80) == 0
  {
    hide And, Or;
    ByteSplit(a, ha, b, hs);
    ByteSplit(Or(a, b), Or(ha, hs), 0x80, h80);
    TopBitOfOr(a, b);
    TopBit(Or(a, b));
  }

  // ---------- eight digits at once

  const MASK: nat := 0x0000_00FF_0000_00FF
  const MUL1: nat := 0x000F_4240_0000_0064  // 100 + (1000000 << 32)
  const MUL2: nat := 0x0000_2710_0000_0001  // 1 + (10000 << 32)

  /** parse_eight_digits_unrolled: two multiplications instead of eight, on 64-bit words. */
  function ParseEightDigitsUnrolled(word: int): int
    requires 0 <= word
  {
    var v1 := WrapSub(word, 0x3030_3030_3030_3030, TWO64);
    var v2 := (v1 * 10 + v1 / 256) % TWO64;
    ((And(v2, MASK) * MUL1 + And(v2 / 0x1_0000, MASK) * MUL2) % TWO64 / TWO32) % TWO32
  }

  /** A word of eight bytes, written out. */
  function Word8(a: int, b: int, c: int, d: int, e: int, f: int, g: int, h: int): int {
    a + 0x100 * b + 0x1_0000 * c + 0x100_0000 * d + 0x1_0000_0000 * e + 0x100_0000_0000 * f
    + 0x1_0000_0000_0000 * g + 0x100_0000_0000_0000 * h
  }

  lemma LeOfEight(s: Text)
    requires |s| == 8
    ensures Le(s) == Word8(s[0], s[1], s[2], s[3], s[4], s[5], s[6], s[7])
  {
    var s1, s2, s3 := s[1..], s[2..], s[3..];
    var s4, s5, s6, s7 := s[4..], s[5..], s[6..], s[7..];
    assert s[1..] == s1 && s1[1..] == s2 && s2[1..] == s3 && s3[1..] == s4;
    assert s4[1..] == s5 && s5[1..] == s6 && s6[1..] == s7 && s7[1..] == [];
    assert Le(s7) == s[7];
    assert Le(s6) == s[6] + 256 * Le(s7);
    assert Le(s5) == s[5] + 256 * Le(s6);
    assert Le(s4) == s[4] + 256 * Le(s5);
    assert Le(s3) == s[3] + 256 * Le(s4);
    assert Le(s2) == s[2] + 256 * Le(s3);
    assert Le(s1) == s[1] + 256 * Le(s2);
  }

  lemma AndByte(x: nat, high: nat, mask: nat, maskHigh: nat)
    requires x < 256 && (mask == 0 || mask == 0xFF)
    ensures And(x + 256 * high, mask + 256 * maskHigh) == (if mask == 0 then 0 else x) + 256 * And(high, maskHigh)
  {
    hide *;
    ByteSplit(x, high, mask, maskHigh);
    Pow2Values();
    AndLowMask(x, 8);
    AndZero(x);
  }

  /** The mask keeps bytes 0 and 4. */
  lemma MaskKeepsTwoBytes(a: nat, b: nat, c: nat, d: nat, e: nat, high: nat)
    requires a < 256 && b < 256 && c < 256 && d < 256 && e < 256
    ensures And(a + 0x100 * b + 0x1_0000 * c + 0x100_0000 * d + TWO32 * e + 0x100_0000_0000 * high, MASK) == a + TWO32 * e
  {
    hide And;
    var t4 := e + 256 * high;
    var t3 := d + 256 * t4;
    var t2 := c + 256 * t3;
    var t1 := b + 256 * t2;
    AndByte(a, t1, 0xFF, 0xFF00_0000);
    AndByte(b, t2, 0, 0xFF_0000);
    AndByte(c, t3, 0, 0xFF00);
    AndByte(d, t4, 0, 0xFF);
    AndByte(e, high, 0xFF, 0);
    AndZero(high);
  }

  /** Neighbouring digits pair up into bytes below 100. */
  lemma DigitPairs(a: int, b: int, c: int, d: int, e: int, f: int, g: int, h: int)
    requires 0 <= a <= 9 && 0 <= b <= 9 && 0 <= c <= 9 && 0 <= d <= 9
    requires 0 <= e <= 9 && 0 <= f <= 9 && 0 <= g <= 9 && 0 <= h <= 9
    ensures 0 <= Word8(a, b, c, d, e, f, g, h) < TWO64
    ensures Word8(a, b, c, d, e, f, g, h) / 256 == Word8(b, c, d, e, f, g, h, 0)
    ensures Word8(a, b, c, d, e, f, g, h) * 10 + Word8(b, c, d, e, f, g, h, 0)
            == Word8(10 * a + b, 10 * b + c, 10 * c + d, 10 * d + e, 10 * e + f, 10 * f + g, 10 * g + h, 10 * h)
    ensures Word8(10 * a + b, 10 * b + c, 10 * c + d, 10 * d + e, 10 * e + f, 10 * f + g, 10 * g + h, 10 * h) < TWO64
  {
    assert Word8(a, b, c, d, e, f, g, h) == a + 256 * Word8(b, c, d, e, f, g, h, 0);
  }

  /** Both multiplications together leave the number in the upper half of the word. */
  lemma PairsToNumber(p0: int, p2: int, p4: int, p6: int)
    requires 0 <= p0 < 100 && 0 <= p2 < 100 && 0 <= p4 < 100 && 0 <= p6 < 100
    ensures ((p0 + TWO32 * p4) * MUL1 + (p2 + TWO32 * p6) * MUL2) % TWO64 / TWO32 % TWO32
            == 1000000 * p0 + 10000 * p2 + 100 * p4 + p6
  {
    var low := 100 * p0 + p2;
    var middle := 1000000 * p0 + 10000 * p2 + 100 * p4 + p6;
    var high := 1000000 * p4 + 10000 * p6;
    assert (p0 + TWO32 * p4) * MUL1 + (p2 + TWO32 * p6) * MUL2 == low + TWO32 * middle + TWO64 * high;
    MiddleWord(low, middle, high);
  }

  lemma MiddleWord(low: int, middle: int, high: int)
    requires 0 <= low < TWO32 && 0 <= middle < TWO32
    ensures (low + TWO32 * middle + TWO64 * high) % TWO64 / TWO32 % TWO32 == middle
  {
    DivModUnique(low + TWO32 * middle + TWO64 * high, TWO64, high, low + TWO32 * middle);
    DivModUnique(low + TWO32 * middle, TWO32, middle, low);
  }

  lemma DecValOfEight(s: Text)
    requires |s| == 8
    ensures DecVal(s) == 10000000 * DigitOf(s[0]) + 1000000 * DigitOf(s[1]) + 100000 * DigitOf(s[2]) + 10000 * DigitOf(s[3])
                         + 1000 * DigitOf(s[4]) + 100 * DigitOf(s[5]) + 10 * DigitOf(s[6]) + DigitOf(s[7])
  {
    hide DecVal;
    assert s[..8] == s;
    DecValOfNone(s[..0]);
    DecValPrefix(s, 0);
    DecValPrefix(s, 1);
    DecValPrefix(s, 2);
    DecValPrefix(s, 3);
    DecValPrefix(s, 4);
    DecValPrefix(s, 5);
    DecValPrefix(s, 6);
    DecValPrefix(s, 7);
  }

  lemma DecValOfNone(s: Text)
    requires |s| == 0
    ensures DecVal(s) == 0
  {
  }

  lemma DecValPrefix(s: Text, i: nat)
    requires i < |s|
    ensures DecVal(s[..i + 1]) == 10 * DecVal(s[..i]) + DigitOf(s[i])
  {
    assert s[..i + 1][..i] == s[..i];
  }

  /** Eight digits read as one word and multiplied twice give the number they spell. */
  lemma ParseEight(s: Text)
    requires |s| == 8 && AllDigits(s)
    ensures ParseEightDigitsUnrolled(Le(s)) == DecVal(s)
  {
    hide DecVal, Le, And;
    var a, b, c, d := DigitOf(s[0]), DigitOf(s[1]), DigitOf(s[2]), DigitOf(s[3]);
    var e, f, g, h := DigitOf(s[4]), DigitOf(s[5]), DigitOf(s[6]), DigitOf(s[7]);
    LeOfEight(s);
    DecValOfEight(s);
    DigitPairs(a, b, c, d, e, f, g, h);
    BiasedWord(a, b, c, d, e, f, g, h);
    EightDigits(a, b, c, d, e, f, g, h);
  }

  lemma BiasedWord(a: int, b: int, c: int, d: int, e: int, f: int, g: int, h: int)
    ensures Word8(48 + a, 48 + b, 48 + c, 48 + d, 48 + e, 48 + f, 48 + g, 48 + h)
            == Word8(a, b, c, d, e, f, g, h) + 0x3030_3030_3030_3030
  {
  }

  lemma EightDigits(a: int, b: int, c: int, d: int, e: int, f: int, g: int, h: int)
    requires 0 <= a <= 9 && 0 <= b <= 9 && 0 <= c <= 9 && 0 <= d <= 9
    requires 0 <= e <= 9 && 0 <= f <= 9 && 0 <= g <= 9 && 0 <= h <= 9
    ensures 0 <= Word8(a, b, c, d, e, f, g, h)
    ensures ParseEightDigitsUnrolled(Word8(a, b, c, d, e, f, g, h) + 0x3030_3030_3030_3030)
            == 10000000 * a + 1000000 * b + 100000 * c + 10000 * d + 1000 * e + 100 * f + 10 * g + h
  {
    hide And, Word8;
    DigitPairs(a, b, c, d, e, f, g, h);
    MasksOfPairs(10 * a + b, 10 * b + c, 10 * c + d, 10 * d + e, 10 * e + f, 10 * f + g, 10 * g + h, 10 * h);
    PairsToNumber(10 * a + b, 10 * c + d, 10 * e + f, 10 * g + h);
    SmallWord(Word8(a, b, c, d, e, f, g, h));
    SmallWord(Word8(10 * a + b, 10 * b + c, 10 * c + d, 10 * d + e, 10 * e + f, 10 * f + g, 10 * g + h, 10 * h));
  }

  lemma SmallWord(x: int)
    requires 0 <= x < TWO64
    ensures x % TWO64 == x
  {
  }

  lemma MasksOfPairs(a: nat, b: nat, c: nat, d: nat, e: nat, f: nat, g: nat, h: nat)
    requires a < 256 && b < 256 && c < 256 && d < 256 && e < 256 && f < 256 && g < 256 && h < 256
    ensures And(Word8(a, b, c, d, e, f, g, h), MASK) == a + TWO32 * e
    ensures And(Word8(a, b, c, d, e, f, g, h) / 0x1_0000, MASK) == c + TWO32 * g
  {
    hide And;
    MaskKeepsTwoBytes(a, b, c, d, e, f + 256 * g + 0x1_0000 * h);
    MaskKeepsTwoBytes(c, d, e, f, g, h);
    var w := Word8(c, d, e, f, g, h, 0, 0);
    assert Word8(a, b, c, d, e, f, g, h) == a + 256 * b + 0x1_0000 * w;
  }

  // ---------- accumulating digits in one word

  /** A 64-bit accumulator that starts at i and takes in the digits s, one at a time or several. */
  ghost function Accumulated(i: int, s: Text): int {
    (i * Pow(10, |s|) + DecVal(s)) % TWO64
  }

  lemma WrapEarly(x: int, m: int, y: int)
    ensures (x % TWO64 * m + y) % TWO64 == (x * m + y) % TWO64
  {
    DivModSplit(x, TWO64);
    var q, r := x / TWO64, x % TWO64;
    assert x * m == r * m + q * m * TWO64 by {
      MulDistributes(m, q * TWO64, r);
      assert q * TWO64 * m == q * m * TWO64;
    }
    ModOfMultiple(r * m + y, q * m, TWO64);
  }

  /** Taking in a, then b, is taking in a + b, although the word may wrap in between. */
  lemma AccumulatedConcat(i: int, a: Text, b: Text)
    ensures Accumulated(Accumulated(i, a), b) == Accumulated(i, a + b)
  {
    hide DecVal, Pow;
    var m, n := Pow(10, |a|), Pow(10, |b|);
    WrapEarly(i * m + DecVal(a), n, DecVal(b));
    DecValConcat(a, b);
    PowAdd(10, |a|, |b|);
    MulDistributes(n, i * m, DecVal(a));
    MulAssociates(i, m, n);
  }

  lemma AccumulatedPush(i: int, s: Text, c: byte)
    ensures (10 * Accumulated(i, s) + DigitOf(c)) % TWO64 == Accumulated(i, s + [c])
  {
    AccumulatedConcat(i, s, [c]);
    assert Pow(10, 1) == 10 && DecVal([c]) == DigitOf(c) by {
      DecValPush([], c);
      assert [] + [c] == [c];
    }
  }

  lemma AccumulatedNone(i: word, s: Text)
    requires |s| == 0
    ensures Accumulated(i, s) == i && AllDigits(s)
  {
  }

  lemma SliceExtend(text: Text, start: nat, p: nat, q: nat)
    requires start <= p <= q <= |text|
    ensures text[start..p] + text[p..q] == text[start..q]
  {
  }

  lemma AllDigitsConcat(a: Text, b: Text)
    ensures AllDigits(a + b) <==> AllDigits(a) && AllDigits(b)
  {
    if AllDigits(a + b) {
      forall i | 0 <= i < |a| ensures IsDigit(a[i]) {
        assert (a + b)[i] == a[i];
      }
      forall i | 0 <= i < |b| ensures IsDigit(b[i]) {
        assert (a + b)[|a| + i] == b[i];
      }
    }
  }

  /** Takes in eight digits at a time; what is left is shorter than eight or has a non-digit in its
      first eight bytes. The accumulator is what reading digit by digit would have given. */
  method LoopParseIfEightDigits(text: Text, start: nat, initial: word) returns (p: nat, i: word)
    requires start <= |text|
    ensures start <= p <= |text| && AllDigits(text[start..p]) && i == Accumulated(initial, text[start..p])
    ensures |text| - p >= 8 ==> !AllDigits(text[p..p + 8])
  {
    hide DecVal, Pow, Le, MadeOfDigits, ParseEightDigitsUnrolled, AllDigits, Accumulated;
    p, i := start, initial;
    AccumulatedNone(i, text[start..p]);
    while |text| - p >= 8 && MadeOfDigits(Le(text[p..p + 8]), 8)
      invariant start <= p <= |text| && AllDigits(text[start..p]) && i == Accumulated(initial, text[start..p])
    {
      ghost var chunk := text[p..p + 8];
      i := (i * 100000000 + ParseEightDigitsUnrolled(Le(text[p..p + 8]))) % TWO64;
      MadeOfDigitsIsCorrect(chunk);
      ParseEight(chunk);
      AccumulatedEight(Accumulated(initial, text[start..p]), chunk);
      AccumulatedConcat(initial, text[start..p], chunk);
      AllDigitsConcat(text[start..p], chunk);
      SliceExtend(text, start, p, p + 8);
      p := p + 8;
    }
    if |text| - p >= 8 {
      MadeOfDigitsIsCorrect(text[p..p + 8]);
    }
  }

  lemma AccumulatedEight(i: int, chunk: Text)
    requires |chunk| == 8
    ensures (i * 100000000 + DecVal(chunk)) % TWO64 == Accumulated(i, chunk)
  {
    hide DecVal;
    assert Pow(10, 4) == 10000;
    PowAdd(10, 4, 4);
  }

  // ---------- runs of digits in a text

  lemma {:induction false} DigitsEndIsMaximal(text: Text, from: nat, e: nat)
    requires from <= e <= |text| && AllDigits(text[from..e])
    requires e == |text| || !IsDigit(text[e])
    ensures DigitsEnd(text, from) == e
    decreases e - from
  {
    if from < e {
      assert text[from..e][0] == text[from];
      assert text[from..e][1..] == text[from + 1..e];
      DigitsEndIsMaximal(text, from + 1, e);
    }
  }

  lemma {:induction false} DecValOfZeros(s: Text)
    requires forall i :: 0 <= i < |s| ==> s[i] == ZERO
    ensures DecVal(s) == 0 && AllDigits(s)
  {
    if |s| != 0 {
      DecValOfZeros(s[..|s| - 1]);
    }
  }

  /** A run that does not start with zero is worth at least its leading digit. */
  lemma DecValAtLeast(s: Text)
    requires AllDigits(s) && |s| > 0 && s[0] != ZERO
    ensures Pow(10, |s| - 1) <= DecVal(s)
  {
    hide DecVal;
    var tail := s[1..];
    assert s == [s[0]] + tail;
    DecValConcat([s[0]], tail);
    AllDigitsConcat([s[0]], tail);
    DecValBound(tail);
    DecValOfOne(s[0]);
    MulMonotonic(Pow(10, |tail|), 1, DigitOf(s[0]));
  }

  lemma DecValOfOne(c: byte)
    ensures DecVal([c]) == DigitOf(c)
  {
    DecValPush([], c);
    assert [] + [c] == [c];
  }

  lemma NoLeadingZeros(text: Text, b: nat, z: nat, p: nat)
    requires b <= z <= p <= |text| && AllDigits(text[z..p])
    requires forall k :: b <= k < z ==> text[k] == ZERO
    ensures AllDigits(text[b..p]) && DecVal(text[b..p]) == DecVal(text[z..p])
  {
    hide DecVal;
    var zeros := text[b..z];
    DecValOfZeros(zeros);
    SliceExtend(text, b, z, p);
    DecValConcat(zeros, text[z..p]);
    AllDigitsConcat(zeros, text[z..p]);
  }

  lemma OneMoreDigit(s: Text, c: byte)
    requires AllDigits(s) && IsDigit(c)
    ensures AllDigits(s + [c])
  {
  }

  /** The rest of the run, one digit at a time, modulo 2^64. */
  method LoopParseDigits(text: Text, ghost start: nat, from: nat, ghost initial: word, soFar: word) returns (p: nat, i: word)
    requires start <= from <= |text| && AllDigits(text[start..from]) && soFar == Accumulated(initial, text[start..from])
    ensures p == DigitsEnd(text, start) && (p == |text| || !IsDigit(text[p]))
    ensures AllDigits(text[start..p]) && i == Accumulated(initial, text[start..p])
  {
    hide Accumulated, AllDigits, DigitsEnd;
    p, i := from, soFar;
    while p != |text| && IsDigit(text[p])
      invariant start <= p <= |text| && AllDigits(text[start..p]) && i == Accumulated(initial, text[start..p])
      decreases |text| - p
    {
      AccumulatedPush(initial, text[start..p], text[p]);
      assert text[start..p] + [text[p]] == text[start..p + 1];
      OneMoreDigit(text[start..p], text[p]);
      i := (10 * i + DigitOf(text[p])) % TWO64;
      p := p + 1;
    }
    DigitsEndIsMaximal(text, start, p);
  }
}
