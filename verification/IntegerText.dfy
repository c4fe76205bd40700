/** Reading an integer from text, in any base from 2 to 36: exact, or reported out of range, apart from
    the values that wrap around the word unnoticed. */
module IntegerText {
  import opened Powers
  import opened Bits
  import opened Bytes
  import opened Digits

  datatype IntType = Int8 | Int16 | Int32 | Int64 | UInt8 | UInt16 | UInt32 | UInt64 {
    predicate Signed() {
      Int8? || Int16? || Int32? || Int64?
    }

    function Max(): int {
      match this
      case Int8 => 0x7F
      case Int16 => 0x7FFF
      case Int32 => 0x7FFF_FFFF
      case Int64 => 0x7FFF_FFFF_FFFF_FFFF
      case UInt8 => 0xFF
      case UInt16 => 0xFFFF
      case UInt32 => 0xFFFF_FFFF
      case UInt64 => 0xFFFF_FFFF_FFFF_FFFF
    }

    function Min(): int {
      if Signed() then -Max() - 1 else 0
    }

    predicate Fits(v: int) {
      Min() <= v <= Max()
    }

    /** Conversion to this type keeps the low bits. */
    function Convert(x: int): int {
      var range := Max() - Min() + 1;
      if x % range <= Max() then x % range else x % range - range
    }
  }

  datatype Errc = Ok | InvalidArgument | OutOfRange

  /** ptr is where reading stopped; value is None when the output was not written. */
  datatype Answer = Answer(ec: Errc, ptr: nat, value: Option<int>)

  const MINIMUM_BASE: int := 2
  const MAXIMUM_BASE: int := 36

  /** By base from 2 on: how many digits a word can have, and the least value with as many. */
  const MAX_DIGITS: seq<nat> := [
    64, 41, 32, 28, 25, 23, 22, 21, 20, 19, 18, 18, 17, 17, 16, 16, 16, 16,
    15, 15, 15, 15, 14, 14, 14, 14, 14, 14, 14, 13, 13, 13, 13, 13, 13]

  const MIN_SAFE: seq<word> := [
    9223372036854775808, 12157665459056928801, 4611686018427387904, 7450580596923828125, 4738381338321616896,
    3909821048582988049, 9223372036854775808, 12157665459056928801, 10000000000000000000, 5559917313492231481,
    2218611106740436992, 8650415919381337933, 2177953337809371136, 6568408355712890625, 1152921504606846976,
    2862423051509815793, 6746640616477458432, 15181127029874798299, 1638400000000000000, 3243919932521508681,
    6221821273427820544, 11592836324538749809, 876488338465357824, 1490116119384765625, 2481152873203736576,
    4052555153018976267, 6502111422497947648, 10260628712958602189, 15943230000000000000, 787662783788549761,
    1152921504606846976, 1667889514952984961, 2386420683693101056, 3379220508056640625, 4738381338321616896]

  // ---------- digits and values in a base

  /** The value of a character as a digit, 255 if it is none. */
  function DigitValue(c: byte): nat {
    if 48 <= c <= 57 then c - 48
    else if 65 <= c <= 90 then c - 55
    else if 97 <= c <= 122 then c - 87
    else 255
  }

  ghost predicate AllDigitsIn(base: nat, s: Text) {
    forall i :: 0 <= i < |s| ==> DigitValue(s[i]) < base
  }

  /** The number that a run of digits spells, most significant digit first. */
  ghost function ValueIn(base: nat, s: Text): nat {
    if |s| == 0 then 0 else base * ValueIn(base, s[..|s| - 1]) + DigitValue(s[|s| - 1])
  }

  /** Where the run of digits that starts at from ends. */
  function RunEnd(base: nat, text: Text, from: nat): (e: nat)
    requires from <= |text|
    ensures from <= e <= |text|
    decreases |text| - from
  {
    if from == |text| || DigitValue(text[from]) >= base then from else RunEnd(base, text, from + 1)
  }

  lemma ValuePush(base: nat, s: Text, c: byte)
    ensures ValueIn(base, s + [c]) == base * ValueIn(base, s) + DigitValue(c)
    ensures AllDigitsIn(base, s + [c]) <==> AllDigitsIn(base, s) && DigitValue(c) < base
  {
    assert (s + [c])[..|s|] == s;
    if AllDigitsIn(base, s + [c]) {
      forall i | 0 <= i < |s| ensures DigitValue(s[i]) < base {
        assert (s + [c])[i] == s[i];
      }
      assert (s + [c])[|s|] == c;
    }
  }

  lemma {:induction false} ValueBounds(base: nat, s: Text)
    requires AllDigitsIn(base, s) && 0 < base
    ensures ValueIn(base, s) < Pow(base, |s|)
    ensures |s| > 0 && s[0] != ZERO ==> Pow(base, |s| - 1) <= ValueIn(base, s)
  {
    if |s| != 0 {
      var m := |s| - 1;
      var v := ValueIn(base, s[..m]);
      ValueBounds(base, s[..m]);
      MulMonotonic(base, v + 1, Pow(base, m));
      MulDistributes(base, v, 1);
      if m > 0 && s[0] != ZERO {
        MulMonotonic(base, Pow(base, m - 1), v);
      }
    }
  }

  /** In base 10 these are the digits and values of decimal text. */
  lemma {:induction false} DecimalValue(s: Text)
    requires AllDigits(s)
    ensures AllDigitsIn(10, s) && ValueIn(10, s) == DecVal(s)
  {
    if |s| != 0 {
      DecimalValue(s[..|s| - 1]);
    }
  }

  lemma {:induction false} RunEndIsMaximal(base: nat, text: Text, from: nat, e: nat)
    requires from <= e <= |text| && AllDigitsIn(base, text[from..e])
    requires e == |text| || DigitValue(text[e]) >= base
    ensures RunEnd(base, text, from) == e
    decreases e - from
  {
    if from < e {
      assert text[from..e][0] == text[from];
      assert text[from..e][1..] == text[from + 1..e];
      RunEndIsMaximal(base, text, from + 1, e);
    }
  }

  /** Zeros in front count nothing. */
  lemma {:induction false} ZerosInFront(base: nat, text: Text, b: nat, z: nat, p: nat)
    requires 0 < base && b <= z <= p <= |text| && AllDigitsIn(base, text[z..p])
    requires forall k :: b <= k < z ==> text[k] == ZERO
    ensures AllDigitsIn(base, text[b..p]) && ValueIn(base, text[b..p]) == ValueIn(base, text[z..p])
    decreases p
  {
    hide ValueIn, AllDigitsIn;
    if p == b {
      assert text[b..p] == text[z..p];
    } else {
      var m := p - 1;
      assert text[b..p] == text[b..m] + [text[m]];
      ValuePush(base, text[b..m], text[m]);
      NoValue(base, text[p..p]);
      NoValue(base, text[m..m]);
      if p == z {
        ZerosInFront(base, text, b, m, m);
      } else {
        assert text[z..p] == text[z..m] + [text[m]];
        ValuePush(base, text[z..m], text[m]);
        ZerosInFront(base, text, b, z, m);
      }
    }
  }

  // ---------- the limits of each base

  /** A power by repeated squaring. */
  function FastPow(b: nat, e: nat): nat
    decreases e
  {
    if e == 0 then 1
    else if e % 2 == 0 then FastPow(b * b, e / 2)
    else b * FastPow(b * b, e / 2)
  }

  lemma {:induction false} FastPowIsPow(b: nat, e: nat)
    ensures FastPow(b, e) == Pow(b, e)
    decreases e
  {
    if e != 0 {
      FastPowIsPow(b * b, e / 2);
      assert Pow(b, 2) == b * Pow(b, 1) && Pow(b, 1) == b;
      PowOfPow(b, 2, e / 2);
    }
  }

  lemma Powers2()
    ensures FastPow(2, 63) == 9223372036854775808 && FastPow(3, 40) == 12157665459056928801
    ensures FastPow(4, 31) == 4611686018427387904 && FastPow(5, 27) == 7450580596923828125
  {
  }

  lemma Powers6()
    ensures FastPow(6, 24) == 4738381338321616896 && FastPow(7, 22) == 3909821048582988049
    ensures FastPow(8, 21) == 9223372036854775808 && FastPow(9, 20) == 12157665459056928801
    ensures FastPow(10, 19) == 10000000000000000000
  {
  }

  lemma Limits2(base: nat)
    requires 2 <= base < 11
    ensures FastPow(base, MAX_DIGITS[base - 2] - 1) == MIN_SAFE[base - 2]
  {
    hide FastPow;
    Powers2();
    Powers6();
  }

  lemma Powers11()
    ensures FastPow(11, 18) == 5559917313492231481 && FastPow(12, 17) == 2218611106740436992
    ensures FastPow(13, 17) == 8650415919381337933 && FastPow(14, 16) == 2177953337809371136
  {
  }

  lemma Powers15()
    ensures FastPow(15, 16) == 6568408355712890625 && FastPow(16, 15) == 1152921504606846976
    ensures FastPow(17, 15) == 2862423051509815793 && FastPow(18, 15) == 6746640616477458432
    ensures FastPow(19, 15) == 15181127029874798299
  {
  }

  lemma Limits11(base: nat)
    requires 11 <= base < 20
    ensures FastPow(base, MAX_DIGITS[base - 2] - 1) == MIN_SAFE[base - 2]
  {
    hide FastPow;
    Powers11();
    Powers15();
  }

  lemma Powers20()
    ensures FastPow(20, 14) == 1638400000000000000 && FastPow(21, 14) == 3243919932521508681
    ensures FastPow(22, 14) == 6221821273427820544 && FastPow(23, 14) == 11592836324538749809
    ensures FastPow(24, 13) == 876488338465357824 && FastPow(25, 13) == 1490116119384765625
    ensures FastPow(26, 13) == 2481152873203736576 && FastPow(27, 13) == 4052555153018976267
    ensures FastPow(28, 13) == 6502111422497947648
  {
  }

  lemma Limits20(base: nat)
    requires 20 <= base < 29
    ensures FastPow(base, MAX_DIGITS[base - 2] - 1) == MIN_SAFE[base - 2]
  {
    hide FastPow;
    Powers20();
  }

  lemma Powers29()
    ensures FastPow(29, 13) == 10260628712958602189 && FastPow(30, 13) == 15943230000000000000
    ensures FastPow(31, 12) == 787662783788549761 && FastPow(32, 12) == 1152921504606846976
    ensures FastPow(33, 12) == 1667889514952984961 && FastPow(34, 12) == 2386420683693101056
    ensures FastPow(35, 12) == 3379220508056640625 && FastPow(36, 12) == 4738381338321616896
  {
  }

  lemma Limits29(base: nat)
    requires 29 <= base < 37
    ensures FastPow(base, MAX_DIGITS[base - 2] - 1) == MIN_SAFE[base - 2]
  {
    hide FastPow;
    Powers29();
  }

  predicate IsBase(base: int) {
    MINIMUM_BASE <= base <= MAXIMUM_BASE
  }

  function MaxDigits(base: int): nat
    requires IsBase(base)
  {
    MAX_DIGITS[base - 2]
  }

  function MinSafe(base: int): word
    requires IsBase(base)
  {
    MIN_SAFE[base - 2]
  }

  /** A value with more digits does not fit a word, one with fewer does. */
  lemma BaseLimits(base: nat)
    requires IsBase(base)
    ensures 0 < MaxDigits(base) && MinSafe(base) == Pow(base, MaxDigits(base) - 1)
    ensures base * MinSafe(base) == Pow(base, MaxDigits(base)) >= TWO64
  {
    hide FastPow, Pow;
    WordsAreShorter(base);
    var d := MAX_DIGITS[base - 2];
    FastPowIsPow(base, d - 1);
    PowNext(base, d - 1);
    if base < 11 {
      Limits2(base);
    } else if base < 20 {
      Limits11(base);
    } else if base < 29 {
      Limits20(base);
    } else {
      Limits29(base);
    }
  }

  /** Checked entry by entry. */
  lemma WordsAreShorter(base: nat)
    requires IsBase(base)
    ensures 0 < MAX_DIGITS[base - 2] && base * MIN_SAFE[base - 2] >= TWO64
  {
    if base < 11 {
      assert base == 2 || base == 3 || base == 4 || base == 5 || base == 6 || base == 7 || base == 8 || base == 9 || base == 10;
    } else if base < 20 {
      assert base == 11 || base == 12 || base == 13 || base == 14 || base == 15 || base == 16 || base == 17 || base == 18
             || base == 19;
    } else if base < 29 {
      assert base == 20 || base == 21 || base == 22 || base == 23 || base == 24 || base == 25 || base == 26 || base == 27
             || base == 28;
    } else {
      assert base == 29 || base == 30 || base == 31 || base == 32 || base == 33 || base == 34 || base == 35 || base == 36;
    }
  }

  // ---------- what reading should answer

  ghost function Magnitude(base: nat, text: Text): int {
    ValueIn(base, text[Start(text)..RunEnd(base, text, Start(text))])
  }

  function WithSign(v: int, negative: bool): int {
    if negative then -v else v
  }

  /** The signed value written at the front of text. */
  ghost function Written(base: nat, text: Text): int {
    WithSign(Magnitude(base, text), Start(text) == 1)
  }

  ghost function Ideal(t: IntType, base: int, text: Text): Answer {
    if !IsBase(base) then Answer(InvalidArgument, 0, None)
    else
      var b := Start(text);
      var e := RunEnd(base, text, b);
      if e == b || (b == 1 && !t.Signed()) then Answer(InvalidArgument, 0, None)
      else if t.Fits(Written(base, text)) then Answer(Ok, e, Some(Written(base, text)))
      else Answer(OutOfRange, e, None)
  }

  /** The largest magnitude of a type. */
  function Limit(t: IntType, negative: bool): int {
    t.Max() + if negative then 1 else 0
  }

  /** A value too large for a word, that wraps to one that looks safe and fits the type. */
  predicate Unnoticed(t: IntType, base: int, negative: bool, v: int)
    requires IsBase(base)
  {
    TWO64 <= v < base * MinSafe(base) && MinSafe(base) <= v % TWO64 <= Limit(t, negative)
  }

  /** The literal is out of range and wraps unnoticed. */
  ghost predicate Misread(t: IntType, base: int, text: Text) {
    && IsBase(base) && Ideal(t, base, text).ec == OutOfRange
    && Unnoticed(t, base, Start(text) == 1, Magnitude(base, text))
  }

  /** What reading does answer. */
  ghost function Expected(t: IntType, base: int, text: Text): Answer {
    if Misread(t, base, text) then
      Answer(Ok, RunEnd(base, text, Start(text)), Some(WithSign(Magnitude(base, text) % TWO64, Start(text) == 1)))
    else Ideal(t, base, text)
  }

  // ---------- characters, cases and ranges in plain numbers

  const ALPHABET: string := "0123456789abcdefghijklmnopqrstuvwxyz"

  /** The digits are the ten digits and the letters of both cases, in the order of the alphabet. */
  lemma DigitCharacters(c: byte)
    ensures DigitValue(c) < 36 <==> 48 <= c <= 57 || 65 <= c <= 90 || 97 <= c <= 122
    ensures |ALPHABET| == 36
    ensures DigitValue(c) < 36 ==>
              var l := ALPHABET[DigitValue(c)] as int;
              l == c as int || (65 <= c <= 90 && l == c as int + 32)
  {
    if DigitValue(c) < 36 {
      AlphabetInOrder(DigitValue(c));
    }
  }

  lemma AlphabetInOrder(d: nat)
    requires d < 36
    ensures |ALPHABET| == 36 && ALPHABET[d] as int == if d < 10 then 48 + d else 87 + d
  {
    if d < 12 {
      assert d == 0 || d == 1 || d == 2 || d == 3 || d == 4 || d == 5 || d == 6 || d == 7 || d == 8 || d == 9 || d == 10 || d == 11;
    } else if d < 24 {
      assert d == 12 || d == 13 || d == 14 || d == 15 || d == 16 || d == 17 || d == 18 || d == 19 || d == 20 || d == 21
             || d == 22 || d == 23;
    } else {
      assert d == 24 || d == 25 || d == 26 || d == 27 || d == 28 || d == 29 || d == 30 || d == 31 || d == 32 || d == 33
             || d == 34 || d == 35;
    }
  }

  /** The same characters, apart from the case of letters. */
  predicate SameButCase(a: Text, b: Text) {
    |a| == |b| && forall i :: 0 <= i < |a| ==> SameLetter(a[i], b[i])
  }

  predicate SameLetter(c: byte, d: byte) {
    c == d || (65 <= c <= 90 && d as int == c as int + 32) || (97 <= c <= 122 && d as int == c as int - 32)
  }

  lemma {:induction false} SameRun(base: nat, a: Text, b: Text, from: nat)
    requires SameButCase(a, b) && from <= |a|
    ensures RunEnd(base, a, from) == RunEnd(base, b, from)
    decreases |a| - from
  {
    if from < |a| {
      assert SameLetter(a[from], b[from]);
      SameRun(base, a, b, from + 1);
    }
  }

  lemma {:induction false} SameValue(base: nat, a: Text, b: Text)
    requires SameButCase(a, b)
    ensures ValueIn(base, a) == ValueIn(base, b)
  {
    if |a| > 0 {
      assert SameLetter(a[|a| - 1], b[|a| - 1]);
      SameValue(base, a[..|a| - 1], b[..|a| - 1]);
    }
  }

  /** Upper and lower case are read alike. */
  lemma CaseDoesNotMatter(t: IntType, base: int, a: Text, b: Text)
    requires SameButCase(a, b)
    ensures Expected(t, base, a) == Expected(t, base, b)
  {
    hide RunEnd, ValueIn, IntType.Fits, Unnoticed;
    SameStart(a, b);
    if IsBase(base) {
      SameRun(base, a, b, Start(a));
      var e := RunEnd(base, a, Start(a));
      forall i | 0 <= i < e - Start(a)
        ensures SameLetter(a[Start(a)..e][i], b[Start(a)..e][i])
      {
        assert SameLetter(a[Start(a) + i], b[Start(a) + i]);
      }
      SameValue(base, a[Start(a)..e], b[Start(a)..e]);
    }
  }

  lemma SameStart(a: Text, b: Text)
    requires SameButCase(a, b)
    ensures Start(a) == Start(b)
  {
    if |a| > 0 {
      assert SameLetter(a[0], b[0]);
    }
  }

  /** The range of each type. */
  predicate InRange(t: IntType, v: int) {
    match t
    case Int8 => -128 <= v <= 127
    case Int16 => -32768 <= v <= 32767
    case Int32 => -2147483648 <= v <= 2147483647
    case Int64 => -9223372036854775808 <= v <= 9223372036854775807
    case UInt8 => 0 <= v <= 255
    case UInt16 => 0 <= v <= 65535
    case UInt32 => 0 <= v <= 4294967295
    case UInt64 => 0 <= v <= 18446744073709551615
  }

  predicate Unsigned(t: IntType) {
    t == UInt8 || t == UInt16 || t == UInt32 || t == UInt64
  }

  /** An optional minus, digits, and something that does not go on with digits. */
  ghost predicate IsIntegerText(base: int, text: Text, minus: bool, digits: Text, rest: Text) {
    && text == (if minus then [45] else []) + digits + rest
    && (forall i :: 0 <= i < |digits| ==> DigitValue(digits[i]) < base)
    && (|rest| > 0 ==> DigitValue(rest[0]) >= base)
    && (!minus && |digits| == 0 && |rest| > 0 ==> rest[0] != 45)
  }

  /** What is answered for such a text: where reading stops, and the value if it is in range. */
  lemma ReadsText(t: IntType, base: int, text: Text, minus: bool, digits: Text, rest: Text)
    requires 2 <= base <= 36 && IsIntegerText(base, text, minus, digits, rest)
    ensures var r := Expected(t, base, text);
            if |digits| == 0 || (minus && Unsigned(t)) then r == Answer(InvalidArgument, 0, None)
            else
              var magnitude: int := ValueIn(base, digits);
              var v: int := if minus then -magnitude else magnitude;
              if InRange(t, v) then r == Answer(Ok, |text| - |rest|, Some(v))
              else r.ptr == |text| - |rest| && (r == Answer(OutOfRange, r.ptr, None) || Misread(t, base, text))
  {
    hide RunEnd, ValueIn, Unnoticed, IsIntegerText, InRange, IntType.Fits;
    PartsOfText(base, text, minus, digits, rest);
    if |digits| > 0 && !(minus && Unsigned(t)) {
      RangeIsFits(t, WithSign(ValueIn(base, digits), minus));
    }
  }

  lemma RangeIsFits(t: IntType, v: int)
    ensures InRange(t, v) <==> t.Fits(v)
  {
  }

  lemma PartsOfText(base: nat, text: Text, minus: bool, digits: Text, rest: Text)
    requires IsBase(base) && IsIntegerText(base, text, minus, digits, rest)
    ensures (Start(text) == 1 <==> minus) && RunEnd(base, text, Start(text)) == Start(text) + |digits| == |text| - |rest|
    ensures Magnitude(base, text) == ValueIn(base, digits)
  {
    hide RunEnd, ValueIn;
    var b := if minus then 1 else 0;
    var e := b + |digits|;
    assert text[b..e] == digits;
    if |digits| > 0 {
      assert DigitValue(digits[0]) < base;
    }
    assert Start(text) == b;
    assert e < |text| ==> text[e] == rest[0];
    RunEndIsMaximal(base, text, b, e);
  }

  /** Every text is such a text. */
  lemma EveryTextIsSplit(base: nat, text: Text) returns (minus: bool, digits: Text, rest: Text)
    requires IsBase(base)
    ensures IsIntegerText(base, text, minus, digits, rest)
  {
    var b := Start(text);
    var e := RunEnd(base, text, b);
    RunIsInBase(base, text, b);
    minus, digits, rest := b == 1, text[b..e], text[e..];
    assert text == text[..b] + text[b..e] + text[e..];
  }

  lemma {:induction false} RunIsInBase(base: nat, text: Text, from: nat)
    requires from <= |text|
    ensures var e := RunEnd(base, text, from);
            && (forall i :: from <= i < e ==> DigitValue(text[i]) < base)
            && (e < |text| ==> DigitValue(text[e]) >= base)
    decreases |text| - from
  {
    if from < |text| && DigitValue(text[from]) < base {
      RunIsInBase(base, text, from + 1);
    }
  }

  lemma NoSuchBase(t: IntType, base: int, text: Text)
    requires !(2 <= base <= 36)
    ensures Expected(t, base, text) == Answer(InvalidArgument, 0, None)
  {
  }

  // ---------- the tests

  /** What the number of digits and the wrapped word tell about the value. */
  lemma WrappedWord(base: nat, s: Text)
    requires IsBase(base) && AllDigitsIn(base, s) && |s| > 0 && s[0] != ZERO
    ensures 0 < ValueIn(base, s)
    ensures |s| > MaxDigits(base) <==> ValueIn(base, s) >= base * MinSafe(base)
    ensures |s| == MaxDigits(base) <==> MinSafe(base) <= ValueIn(base, s) < base * MinSafe(base)
  {
    hide ValueIn, Pow, MaxDigits, MinSafe;
    var d := MaxDigits(base);
    ValueBounds(base, s);
    BaseLimits(base);
    PowPositive(base, |s| - 1);
    if |s| > d {
      PowMonotonic(base, d, |s| - 1);
    } else if |s| < d {
      PowMonotonic(base, |s|, d - 1);
    }
  }

  /** The three tests refuse just the values that do not fit, except those that wrap unnoticed. */
  lemma TestsDecide(t: IntType, base: nat, negative: bool, n: nat, v: int, i: int)
    requires IsBase(base) && 0 < v && i == v % TWO64 && (negative ==> t.Signed())
    requires n > MaxDigits(base) <==> v >= base * MinSafe(base)
    requires n == MaxDigits(base) <==> MinSafe(base) <= v < base * MinSafe(base)
    ensures var refused := n > MaxDigits(base) || (n == MaxDigits(base) && i < MinSafe(base))
                           || (t != UInt64 && i > Limit(t, negative));
            refused <==> !t.Fits(WithSign(v, negative)) && !Unnoticed(t, base, negative, v)
    ensures v < TWO64 ==> i == v
  {
    hide MaxDigits, MinSafe;
    BaseLimits(base);
    DivModSplit(v, TWO64);
    if v < TWO64 {
      DivModUnique(v, TWO64, 0, v);
    }
  }

  /** T(-max - T(i - uint64_t(max))) is -i. */
  function Negated(t: IntType, i: int): int {
    t.Convert(-t.Max() - t.Convert((i - t.Max()) % TWO64))
  }

  /** How often the range of a type fits into a word. */
  function Ratio(t: IntType): (m: int)
    ensures m * (t.Max() - t.Min() + 1) == TWO64
  {
    match t
    case Int8 | UInt8 => 0x100_0000_0000_0000
    case Int16 | UInt16 => 0x1_0000_0000_0000
    case Int32 | UInt32 => 0x1_0000_0000
    case Int64 | UInt64 => 1
  }

  lemma ConvertKeeps(t: IntType, d: int, k: int)
    requires t.Fits(d)
    ensures t.Convert(d + k * (t.Max() - t.Min() + 1)) == d
  {
    var range := t.Max() - t.Min() + 1;
    ModOfMultiple(d, k, range);
    if d < 0 {
      DivModUnique(d, range, -1, d + range);
    } else {
      DivModUnique(d, range, 0, d);
    }
  }

  lemma NegatedIsNegative(t: IntType, i: int)
    requires t.Signed() && 0 <= i <= t.Max() + 1
    ensures Negated(t, i) == -i
  {
    hide IntType.Convert;
    var d := i - t.Max();
    if d < 0 {
      DivModUnique(d, TWO64, -1, d + TWO64);
      ConvertKeeps(t, d, Ratio(t));
    } else {
      DivModUnique(d, TWO64, 0, d);
      ConvertKeeps(t, d, 0);
    }
    ConvertKeeps(t, -i, 0);
  }

  // ---------- reading

  method SkipZeros(text: Text, from: nat) returns (p: nat)
    requires from <= |text|
    ensures from <= p <= |text|
    ensures forall k :: from <= k < p ==> text[k] == ZERO
    ensures p == |text| || text[p] != ZERO
  {
    p := from;
    while p != |text| && text[p] == ZERO
      invariant from <= p <= |text|
      invariant forall k :: from <= k < p ==> text[k] == ZERO
      decreases |text| - p
    {
      p := p + 1;
    }
  }

  /** The rest of a run of digits, one at a time, modulo 2^64. */
  method ReadRun(base: nat, text: Text, ghost start: nat, from: nat, soFar: word) returns (p: nat, i: word)
    requires start <= from <= |text| && AllDigitsIn(base, text[start..from]) && soFar == ValueIn(base, text[start..from]) % TWO64
    requires base <= 36
    ensures from <= p <= |text| && AllDigitsIn(base, text[start..p]) && i == ValueIn(base, text[start..p]) % TWO64
    ensures p == |text| || DigitValue(text[p]) >= base
  {
    hide ValueIn, AllDigitsIn;
    p, i := from, soFar;
    while p != |text|
      invariant from <= p <= |text| && AllDigitsIn(base, text[start..p]) && i == ValueIn(base, text[start..p]) % TWO64
      decreases |text| - p
    {
      var digit := DigitValue(text[p]);
      if digit >= base {
        break;
      }
      ValuePush(base, text[start..p], text[p]);
      assert text[start..p] + [text[p]] == text[start..p + 1];
      WrapEarly(ValueIn(base, text[start..p]), base, digit);
      MulCommutes(i, base);
      MulCommutes(ValueIn(base, text[start..p]), base);
      i := (base * i + digit) % TWO64;
      p := p + 1;
    }
  }

  /** The digits from start on; in base 10 eight at a time as long as possible. */
  method ReadDigits(base: nat, text: Text, start: nat) returns (p: nat, i: word)
    requires start <= |text| && 0 < base <= 36
    ensures start <= p <= |text| && AllDigitsIn(base, text[start..p]) && i == ValueIn(base, text[start..p]) % TWO64
    ensures p == |text| || DigitValue(text[p]) >= base
  {
    hide ValueIn, DecVal, AllDigits, AllDigitsIn;
    p, i := start, 0;
    NoValue(base, text[start..p]);
    if base == 10 {
      p, i := LoopParseIfEightDigits(text, p, i);
      DecimalValue(text[start..p]);
      FromZero(text[start..p]);
    }
    p, i := ReadRun(base, text, start, p, i);
  }

  lemma NoValue(base: nat, s: Text)
    requires |s| == 0
    ensures AllDigitsIn(base, s) && ValueIn(base, s) == 0
  {
  }

  lemma FromZero(s: Text)
    ensures Accumulated(0, s) == DecVal(s) % TWO64
  {
    hide DecVal, Pow;
  }

  /** parse_int_string: the written value if it fits and out of range if it does not, except that what
      wraps unnoticed is answered with the wrapped value. */
  method ParseInt(text: Text, t: IntType, base: int) returns (r: Answer)
    ensures !Misread(t, base, text) ==> r == Ideal(t, base, text)
    ensures Misread(t, base, text) ==>
              && r.ec == Ok && r.ptr == RunEnd(base, text, Start(text))
              && r.value == Some(WithSign(Magnitude(base, text) % TWO64, Start(text) == 1))
    ensures r == Expected(t, base, text)
  {
    hide ValueIn, AllDigitsIn, IntType.Convert, Unnoticed, RunEnd, MaxDigits, MinSafe;
    if |text| == 0 || !IsBase(base) {
      if IsBase(base) {
        NoValue(base, text[0..0]);
        RunEndIsMaximal(base, text, 0, 0);
      }
      return Answer(InvalidArgument, 0, None);
    }
    var negative := text[0] == MINUS;
    if !t.Signed() && negative {
      return Answer(InvalidArgument, 0, None);
    }
    var startNum := if negative then 1 else 0;
    var startDigits := SkipZeros(text, startNum);
    var p, i := ReadDigits(base, text, startDigits);
    ZerosInFront(base, text, startNum, startDigits, p);
    RunEndIsMaximal(base, text, startNum, p);
    var digitCount := p - startDigits;
    if digitCount == 0 {
      NoValue(base, text[startDigits..p]);
      if startDigits > startNum {
        return Answer(Ok, p, Some(0));
      }
      return Answer(InvalidArgument, 0, None);
    }
    WrappedWord(base, text[startDigits..p]);
    r := Conclude(t, base, negative, digitCount, p, ValueIn(base, text[startDigits..p]), i);
  }

  /** The tests and the conversion, once digits worth v are read. */
  method Conclude(t: IntType, base: nat, negative: bool, digitCount: nat, p: nat, ghost v: int, i: word) returns (r: Answer)
    requires IsBase(base) && (negative ==> t.Signed()) && 0 < v && i == v % TWO64
    requires digitCount > MaxDigits(base) <==> v >= base * MinSafe(base)
    requires digitCount == MaxDigits(base) <==> MinSafe(base) <= v < base * MinSafe(base)
    ensures r == if Unnoticed(t, base, negative, v) then Answer(Ok, p, Some(WithSign(i, negative)))
                 else if t.Fits(WithSign(v, negative)) then Answer(Ok, p, Some(WithSign(v, negative)))
                 else Answer(OutOfRange, p, None)
    ensures t.Fits(WithSign(v, negative)) ==> !Unnoticed(t, base, negative, v)
  {
    hide IntType.Convert, MaxDigits, MinSafe;
    TestsDecide(t, base, negative, digitCount, v, i);
    if digitCount > MaxDigits(base) {
      return Answer(OutOfRange, p, None);
    }
    if digitCount == MaxDigits(base) && i < MinSafe(base) {
      return Answer(OutOfRange, p, None);
    }
    if t != UInt64 {
      if i > Limit(t, negative) {
        return Answer(OutOfRange, p, None);
      }
    }
    if negative {
      NegatedIsNegative(t, i);
      return Answer(Ok, p, Some(Negated(t, i)));
    }
    ConvertKeeps(t, i, 0);
    return Answer(Ok, p, Some(t.Convert(i)));
  }

  // ---------- which types and bases are read exactly

  /** A value wraps unnoticed in a base exactly when a second word begins before its longest literals
      end, and the least value of that length fits the type. */
  lemma WrapIsPossible(t: IntType, base: int, negative: bool)
    requires IsBase(base)
    ensures (exists v :: Unnoticed(t, base, negative, v))
            <==> TWO64 + MinSafe(base) < base * MinSafe(base) && MinSafe(base) <= Limit(t, negative)
  {
    hide MinSafe;
    BaseLimits(base);
    var least := TWO64 + MinSafe(base);
    DivModUnique(least, TWO64, 1, MinSafe(base));
    if TWO64 + MinSafe(base) < base * MinSafe(base) && MinSafe(base) <= Limit(t, negative) {
      assert Unnoticed(t, base, negative, least);
    }
    if exists v :: Unnoticed(t, base, negative, v) {
      var v :| Unnoticed(t, base, negative, v);
      DivModSplit(v, TWO64);
    }
  }

  function DigitCharacter(d: nat): byte
    requires d < 36
  {
    if d < 10 then 48 + d else 87 + d
  }

  /** A text for a number. */
  function Spelling(base: nat, v: nat): Text
    requires IsBase(base)
  {
    if v == 0 then [] else Spelling(base, v / base) + [DigitCharacter(v % base)]
  }

  lemma {:induction false} SpellingIsRead(base: nat, v: nat)
    requires IsBase(base)
    ensures AllDigitsIn(base, Spelling(base, v)) && ValueIn(base, Spelling(base, v)) == v
    ensures v > 0 ==> |Spelling(base, v)| > 0
  {
    hide AllDigitsIn, ValueIn;
    if v == 0 {
      NoValue(base, Spelling(base, v));
    } else {
      DivModSplit(v, base);
      QuotientIsSmaller(v, base);
      SpellingIsRead(base, v / base);
      ValuePush(base, Spelling(base, v / base), DigitCharacter(v % base));
      MulCommutes(base, v / base);
    }
  }

  lemma QuotientIsSmaller(v: nat, base: nat)
    requires 0 < v && 2 <= base
    ensures v / base < v
  {
  }

  function UpperCase(s: Text): Text {
    seq(|s|, i requires 0 <= i < |s| => if 97 <= s[i] <= 122 then s[i] - 32 else s[i])
  }

  predicate LowerCase(s: Text) {
    forall i :: 0 <= i < |s| ==> s[i] == 45 || 48 <= s[i] <= 57 || 97 <= s[i] <= 122
  }

  lemma {:induction false} SpellingIsLower(base: nat, v: nat)
    requires IsBase(base)
    ensures LowerCase(Spelling(base, v))
  {
    if v != 0 {
      QuotientIsSmaller(v, base);
      DivModSplit(v, base);
      SpellingIsLower(base, v / base);
    }
  }

  /** The text of a number in a base. */
  function TextOf(base: nat, v: int): Text
    requires IsBase(base)
  {
    if v < 0 then [45] + Spelling(base, -v) else if v == 0 then [48] else Spelling(base, v)
  }

  /** Every number in range is read back from its text in lower and in upper case. */
  lemma ReadsBack(t: IntType, base: int, v: int)
    requires 2 <= base <= 36 && InRange(t, v)
    ensures var text := TextOf(base, v);
            && LowerCase(text)
            && Expected(t, base, text) == Answer(Ok, |text|, Some(v))
            && Expected(t, base, UpperCase(text)) == Answer(Ok, |text|, Some(v))
  {
    hide Expected, Spelling, ValueIn;
    var text, n := TextOf(base, v), if v < 0 then -v else v;
    var digits := if v == 0 then [48] else Spelling(base, n);
    SpellingIsRead(base, n);
    SpellingIsLower(base, n);
    ZeroIsRead(base);
    assert text == (if v < 0 then [45] else []) + digits + [];
    assert IsIntegerText(base, text, v < 0, digits, []);
    ReadsText(t, base, text, v < 0, digits, []);
    CaseDoesNotMatter(t, base, text, UpperCase(text));
  }

  lemma ZeroIsRead(base: nat)
    requires IsBase(base)
    ensures ValueIn(base, [48]) == 0 && DigitValue(48) < base
  {
    assert [48][..0] == [];
  }

  /** The literal of a number that wraps unnoticed is misread. */
  lemma SpelledIsMisread(t: IntType, base: int, negative: bool, v: int)
    requires IsBase(base) && Unnoticed(t, base, negative, v) && (negative ==> t.Signed())
    ensures Misread(t, base, (if negative then [MINUS] else []) + Spelling(base, v))
  {
    hide AllDigitsIn, ValueIn, MinSafe, RunEnd, Spelling;
    var s := Spelling(base, v);
    var text := (if negative then [MINUS] else []) + s;
    var b := if negative then 1 else 0;
    SpellingIsRead(base, v);
    FirstIsDigit(base, s);
    assert text[b..|text|] == s;
    RunEndIsMaximal(base, text, b, |text|);
    assert Start(text) == b;
    BeyondWord(t, v, negative);
  }

  lemma FirstIsDigit(base: nat, s: Text)
    requires base <= 36 && AllDigitsIn(base, s) && |s| > 0
    ensures s[0] != MINUS
  {
    assert DigitValue(s[0]) < base;
  }

  lemma BeyondWord(t: IntType, v: int, negative: bool)
    requires TWO64 <= v
    ensures !t.Fits(WithSign(v, negative))
  {
  }

  /** Some literal of a type is misread in a base exactly under that condition. */
  lemma MisreadExactly(t: IntType, base: int)
    requires IsBase(base)
    ensures (exists text :: Misread(t, base, text))
            <==> TWO64 + MinSafe(base) < base * MinSafe(base) && MinSafe(base) <= Limit(t, t.Signed())
  {
    hide MinSafe, Unnoticed, Misread;
    WrapIsPossible(t, base, false);
    WrapIsPossible(t, base, true);
    if TWO64 + MinSafe(base) < base * MinSafe(base) && MinSafe(base) <= Limit(t, t.Signed()) {
      var v :| Unnoticed(t, base, t.Signed(), v);
      SpelledIsMisread(t, base, t.Signed(), v);
    }
    if exists text :: Misread(t, base, text) {
      var text :| Misread(t, base, text);
      MisreadSign(t, base, text);
    }
  }

  lemma MisreadSign(t: IntType, base: int, text: Text)
    requires Misread(t, base, text)
    ensures IsBase(base) && exists negative, v :: (negative ==> t.Signed()) && Unnoticed(t, base, negative, v)
  {
    hide MinSafe, RunEnd, ValueIn;
    assert Unnoticed(t, base, Start(text) == 1, Magnitude(base, text));
  }

  /** Decimal text is read exactly into every type but uint64. */
  lemma DecimalIsExact(t: IntType)
    ensures (exists text :: Misread(t, 10, text)) <==> t == UInt64
  {
    hide Misread;
    MisreadExactly(t, 10);
  }

  /** Types of at most 32 bits are read exactly in every base. */
  lemma SmallTypesAreExact(t: IntType, base: int)
    requires IsBase(base) && t != Int64 && t != UInt64
    ensures !exists text :: Misread(t, base, text)
  {
    hide Misread;
    MisreadExactly(t, base);
    LeastIsLarge(base);
  }

  lemma LeastIsLarge(base: int)
    requires IsBase(base)
    ensures TWO32 < MinSafe(base)
  {
    hide MinSafe, Pow;
    BaseLimits(base);
    if MinSafe(base) <= TWO32 {
      MulMonotonic(MinSafe(base), base, 36);
    }
  }

  /** The literal 30000000000000000000 is accepted as uint64, and as int64 in base 5 some are. */
  lemma MisreadWitnesses()
    ensures Unnoticed(UInt64, 10, false, 30_000_000_000_000_000_000)
    ensures 30_000_000_000_000_000_000 % TWO64 == 11_553_255_926_290_448_384
    ensures Misread(UInt64, 10, Spelling(10, 30_000_000_000_000_000_000))
    ensures exists text :: Misread(Int64, 5, text)
  {
    hide Misread, Spelling;
    assert Unnoticed(UInt64, 10, false, 30_000_000_000_000_000_000);
    SpelledIsMisread(UInt64, 10, false, 30_000_000_000_000_000_000);
    var none: Text := [];
    assert none + Spelling(10, 30_000_000_000_000_000_000) == Spelling(10, 30_000_000_000_000_000_000);
    MisreadExactly(Int64, 5);
  }
}
