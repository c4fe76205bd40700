/** From the text of a literal to a float: the range tests and the comparison of big integers together,
    and what a cut exponent does to the answer. */
module Literal {
  import opened Powers
  import opened Bytes
  import opened Digits
  import opened Rounding
  import opened NumberText
  import opened SlowPath
  import DC = DigitComparison

  // ---------- which numbers round to zero and to infinity

  /** v * 10^e is at most half the smallest denormal. */
  ghost predicate Vanishes(f: Format, v: int, e: int)
    requires ValidFormat(f)
  {
    2 * Numerator(f, v, e) <= Denominator(e)
  }

  /** v * 10^e is at least the midpoint between the largest float and the next power of two. */
  ghost predicate Overflows(f: Format, v: int, e: int)
    requires ValidFormat(f)
  {
    HiddenPositive(f);
    var top := InfinityWord(f);
    Denominator(e) * (Units(f, top - 1) + Units(f, top)) <= 2 * Numerator(f, v, e)
  }

  lemma ZeroExactly(f: Format, v: int, e: int)
    requires ValidFormat(f) && 0 <= v
    ensures RoundsTo(f, v, e, 0) <==> Vanishes(f, v, e)
  {
    hide Units, Pow, Numerator, Denominator, InfinityWord, IsNearest, Infinity;
    var x, d := Numerator(f, v, e), Denominator(e);
    NumeratorSign(f, v, e);
    HiddenPositive(f);
    Unfolded(f, v, e, 0);
    UnitsOfDenormal(f, 0);
    UnitsOfDenormal(f, 1);
    if RoundsTo(f, v, e, 0) {
      NearestNeighbours(f, x, d, 0);
    }
    if Vanishes(f, v, e) {
      NearestNeighbour(f, x, d, 0, false);
    }
  }

  lemma NumeratorSign(f: Format, v: int, e: int)
    requires ValidFormat(f) && 0 <= v
    ensures 0 <= Numerator(f, v, e) && 0 < Denominator(e)
  {
    hide Pow;
    DoubledNumerator(f, v, e);
    PowPositive(10, DC.Positive(e));
    PowPositive(2, Bias(f) - 1);
    MulMonotonic(Pow(10, DC.Positive(e)), 0, v);
    MulMonotonic(Pow2(Bias(f) - 1), 0, v * Pow(10, DC.Positive(e)));
  }

  lemma InfinityIsEven(f: Format)
    requires ValidFormat(f)
    ensures InfinityWord(f) % 2 == 0
  {
    hide Pow;
    PowNext(2, f.mantissaBits - 1);
    var h := Pow2(f.mantissaBits - 1);
    assert f.infinitePower * (2 * h) == 0 + f.infinitePower * h * 2 by {
      MulAssociates(f.infinitePower, h, 2);
    }
    ModOfMultiple(0, f.infinitePower * h, 2);
  }

  lemma InfinityExactly(f: Format, v: int, e: int)
    requires ValidFormat(f) && 0 <= v
    ensures RoundsTo(f, v, e, InfinityWord(f)) <==> Overflows(f, v, e)
  {
    hide Units, Pow, Numerator, Denominator, InfinityWord, IsNearest, Infinity;
    var x, d, top := Numerator(f, v, e), Denominator(e), InfinityWord(f);
    NumeratorSign(f, v, e);
    HiddenPositive(f);
    Unfolded(f, v, e, top);
    InfinityIsEven(f);
    if RoundsTo(f, v, e, top) {
      NearestNeighbours(f, x, d, top);
    }
    if Overflows(f, v, e) {
      UnitsStep(f, top - 1);
      MulOrder(d, Units(f, top - 1), Units(f, top));
      MulDistributes(d, Units(f, top - 1), Units(f, top));
      if d * Units(f, top) <= x {
        NearestIsInfinity(f, x, d);
      } else {
        NearestNeighbour(f, x, d, top - 1, true);
      }
    }
  }

  /** There is one nearest word. */
  lemma NearestIsUnique(f: Format, x: int, d: int, a: int, b: int)
    requires ValidFormat(f) && 0 < d && IsNearest(f, x, d, a) && IsNearest(f, x, d, b) && a <= b
    ensures a == b
  {
    hide Units, InfinityWord, Infinity;
    if a < b {
      NearestNeighbours(f, x, d, a);
      NearestNeighbours(f, x, d, b);
      UnitsMonotonic(f, a, b - 1);
      UnitsMonotonic(f, a + 1, b);
      UnitsStep(f, b - 1);
      if a + 1 < b {
        UnitsMonotonic(f, a, b - 2);
        UnitsStep(f, b - 2);
        MulOrder(d, Units(f, a) + Units(f, a + 1), Units(f, b - 1) + Units(f, b));
      }
    }
  }

  // ---------- one number at two scales

  lemma ScaledNumerator(f: Format, v: int, e: int, g: nat)
    requires ValidFormat(f)
    ensures Numerator(f, v * Pow(10, g), e) == Pow(10, g) * Numerator(f, v, e)
  {
    hide Pow;
    var a, h, p := Pow(10, DC.Positive(e)), Pow2(Bias(f) - 1), Pow(10, g);
    FractionParts(f, v, e);
    FractionParts(f, v * p, e);
    MulCommutes(v, p);
    MulAssociates(p, v, a);
    MulAssociates(p, v * a, h);
  }

  /** A larger exponent is a larger number. */
  lemma ScaleOrders(f: Format, v: int, e: int, g: nat)
    requires ValidFormat(f) && 0 <= v
    ensures Vanishes(f, v, e + g) ==> Vanishes(f, v, e)
    ensures Overflows(f, v, e) ==> Overflows(f, v, e + g)
  {
    hide Units, Pow, Numerator, Denominator, InfinityWord;
    var x, d, x', d' := Numerator(f, v, e), Denominator(e), Numerator(f, v, e + g), Denominator(e + g);
    var top := InfinityWord(f);
    HiddenPositive(f);
    var u := Units(f, top - 1) + Units(f, top);
    NumeratorSign(f, v, e);
    NumeratorSign(f, v, e + g);
    Rescaled(f, v, e, g);
    ScaledNumerator(f, v, e, g);
    PowPositive(10, g);
    MulMonotonic(x, 1, Pow(10, g));
    MulMonotonic(d', x, Pow(10, g) * x);
    CrossOrder(x, d, x', d', u);
  }

  /** x / d is at most x' / d'. */
  lemma CrossOrder(x: int, d: int, x': int, d': int, u: int)
    requires 0 < d && 0 < d' && x * d' <= x' * d
    ensures 2 * x' <= d' ==> 2 * x <= d
    ensures d * u <= 2 * x ==> d' * u <= 2 * x'
  {
    hide *;
    MulAssociates(2, x, d');
    MulAssociates(2, x', d);
    MulCommutes(2 * x, d');
    MulCommutes(2 * x', d);
    MulCommutes(d, d');
    if 2 * x' <= d' {
      MulMonotonic(d, 2 * x', d');
      MulOrder(d', 2 * x, d);
    }
    if d * u <= 2 * x {
      MulMonotonic(d', d * u, 2 * x);
      MulAssociates(d', d, u);
      MulAssociates(d, d', u);
      MulOrder(d, d' * u, 2 * x');
    }
  }

  lemma AtMostDouble(f: Format, word: int)
    requires ValidFormat(f) && 1 <= word
    ensures 1 <= Units(f, word) && Units(f, word + 1) <= 2 * Units(f, word)
  {
    hide Units, Pow;
    HiddenInRange(f);
    if word < Hidden(f) {
      UnitsOfDenormal(f, word);
      UnitsOfDenormal(f, word + 1);
    } else {
      var power, m := WordAsPair(f, word);
      UnitsOfPair(f, power, m);
      UnitsOfPair(f, power, m + 1);
      PowPositive(2, power - 1);
      MulMonotonic(Pow2(power - 1), 1, m);
      MulMonotonic(Pow2(power - 1), m + 1, 2 * m);
    }
  }

  /** Two scales of a number never share a word other than zero and infinity. */
  lemma ScalesPart(f: Format, v: int, e: int, k: nat, word: int)
    requires ValidFormat(f) && 0 <= v && 1 <= k
    requires RoundsTo(f, v, e, word) && RoundsTo(f, v, e + k, word)
    ensures word == 0 || word == InfinityWord(f)
  {
    hide Units, Pow, Numerator, Denominator, InfinityWord, IsNearest, RoundsTo, Infinity;
    var x, d, p := Numerator(f, v, e), Denominator(e), Pow(10, k);
    NumeratorSign(f, v, e);
    Unfolded(f, v, e, word);
    Unfolded(f, v * p, e, word);
    NearestNeighbours(f, x, d, word);
    ShiftsTogether(f, v, e, k, word);
    ScaledNumerator(f, v, e, k);
    NearestNeighbours(f, p * x, d, word);
    if 0 < word < InfinityWord(f) {
      AtMostDouble(f, word);
      UnitsMonotonic(f, 0, word - 1);
      UnitsOfZero(f);
      TenOrMore(k);
      TooFarApart(x, p, d, Units(f, word - 1), Units(f, word), Units(f, word + 1));
    }
  }

  /** Numbers with a factor of ten between them do not lie in the same interval of words. */
  lemma TooFarApart(x: int, p: int, d: int, below: int, u: int, above: int)
    requires 10 <= p && 0 < d && 0 <= x && 0 <= below && 1 <= u && above <= 2 * u && d * (below + u) <= 2 * x
    ensures d * (u + above) < 2 * (p * x)
  {
    MulMonotonic(x, 10, p);
    MulOrder(d, u + above, 10 * (below + u));
    assert d * (10 * (below + u)) == 10 * (d * (below + u));
  }

  lemma UnitsOfZero(f: Format)
    requires ValidFormat(f)
    ensures Units(f, 0) == 0
  {
    HiddenInRange(f);
    UnitsOfDenormal(f, 0);
  }

  lemma TenOrMore(k: nat)
    requires 1 <= k
    ensures 10 <= Pow(10, k)
  {
    PowNext(10, 0);
    PowNone(10);
    PowMonotonic(10, 1, k);
  }

  /** A word is right at two scales exactly when both are zero or both are infinity. */
  lemma TwoScales(f: Format, v: int, e: int, k: nat, word: int)
    requires ValidFormat(f) && 0 <= v && 1 <= k
    ensures RoundsTo(f, v, e, word) && RoundsTo(f, v, e + k, word)
            <==> (word == 0 && Vanishes(f, v, e + k)) || (word == InfinityWord(f) && Overflows(f, v, e))
  {
    hide RoundsTo, Vanishes, Overflows, InfinityWord;
    ZeroExactly(f, v, e);
    ZeroExactly(f, v, e + k);
    InfinityExactly(f, v, e);
    InfinityExactly(f, v, e + k);
    ScaleOrders(f, v, e, k);
    if RoundsTo(f, v, e, word) && RoundsTo(f, v, e + k, word) {
      ScalesPart(f, v, e, k, word);
    }
  }

  // ---------- what a cut exponent does to the answer

  /** The answer at the scale that the scanner accumulates is the answer for the literal as written:
      the exponent is not cut, or both numbers are beyond the same end of the format. */
  ghost predicate RoundsAsWritten(f: Format, text: Text, o: Options)
    requires ValidFormat(f) && IsLiteral(text, o)
  {
    var part := ExponentAt(text, FractionEnd(text, o), o);
    var v, read, written := DecVal(LiteralDigits(text, o)), ScaleOf(text, o), WrittenScale(text, o);
    || BelowSaturation(part.digits)
    || if part.negative then Vanishes(f, v, read) || Overflows(f, v, written)
       else Overflows(f, v, read) || Vanishes(f, v, written)
  }

  /** How the two scales lie. */
  lemma ScalesOfLiteral(text: Text, o: Options)
    requires IsLiteral(text, o)
    ensures var part := ExponentAt(text, FractionEnd(text, o), o);
            var read, written := ScaleOf(text, o), WrittenScale(text, o);
            && (read == written <==> BelowSaturation(part.digits))
            && (read > written ==> part.negative && read <= -EXPONENT_LIMIT)
            && (read < written ==> !part.negative && EXPONENT_LIMIT - |LiteralDigits(text, o)| <= read)
  {
    hide DecVal, Clamped, DigitsEnd, ExponentAt, HasDigits, SignIsFollowed;
    var part := ExponentAt(text, FractionEnd(text, o), o);
    ExponentPartIsDigits(text, FractionEnd(text, o), o);
    ClampedIsExact(part.digits);
  }

  /** The rounded number is rounded as written exactly under that condition. */
  lemma CutRounds(f: Format, text: Text, o: Options, word: int)
    requires ValidFormat(f) && IsLiteral(text, o)
    requires RoundsTo(f, DecVal(LiteralDigits(text, o)), ScaleOf(text, o), word)
    ensures RoundsTo(f, DecVal(LiteralDigits(text, o)), WrittenScale(text, o), word) <==> RoundsAsWritten(f, text, o)
  {
    hide DecVal, RoundsTo, Vanishes, Overflows, IsLiteral, ScaleOf, WrittenScale, ExponentAt, FractionEnd, BelowSaturation,
         LiteralDigits, InfinityWord, IsNearest, Numerator, Denominator, AllDigits, Pow;
    var v, read, written := DecVal(LiteralDigits(text, o)), ScaleOf(text, o), WrittenScale(text, o);
    PartsAreDigits(text, o);
    DecValBound(LiteralDigits(text, o));
    ScalesOfLiteral(text, o);
    if read > written {
      TwoScales(f, v, written, read - written, word);
      ExtremesAreWords(f, v, written, read - written, read, word);
    } else if read < written {
      TwoScales(f, v, read, written - read, word);
      ExtremesAreWords(f, v, read, written - read, read, word);
    }
  }

  /** What vanishes at the larger scale, or overflows at the smaller, has that word at both. */
  lemma ExtremesAreWords(f: Format, v: int, e: int, k: nat, at: int, word: int)
    requires ValidFormat(f) && 0 <= v && (at == e || at == e + k) && RoundsTo(f, v, at, word)
    ensures Vanishes(f, v, e + k) ==> word == 0
    ensures Overflows(f, v, e) ==> word == InfinityWord(f)
  {
    hide RoundsTo, Vanishes, Overflows, InfinityWord;
    ScaleOrders(f, v, e, k);
    ZeroExactly(f, v, at);
    InfinityExactly(f, v, at);
    if Vanishes(f, v, e + k) {
      SameWord(f, v, at, word, 0);
    }
    if Overflows(f, v, e) {
      SameWord(f, v, at, word, InfinityWord(f));
    }
  }

  lemma SameWord(f: Format, v: int, e: int, a: int, b: int)
    requires ValidFormat(f) && 0 <= v && RoundsTo(f, v, e, a) && RoundsTo(f, v, e, b)
    ensures a == b
  {
    hide IsNearest, Numerator, Denominator;
    NumeratorSign(f, v, e);
    NearestIsUnique(f, Numerator(f, v, e), Denominator(e), if a <= b then a else b, if a <= b then b else a);
  }

  /** A literal of less than 2^28 - 400 digits is rounded as written whatever its exponent. */
  lemma ShortIsAsWritten(f: Format, text: Text, o: Options)
    requires (f == DOUBLE || f == FLOAT) && ValidFormat(f) && IsLiteral(text, o)
    requires |LiteralDigits(text, o)| + 400 < EXPONENT_LIMIT
    ensures RoundsAsWritten(f, text, o)
  {
    hide DecVal, Vanishes, Overflows, IsLiteral, ScaleOf, WrittenScale, ExponentAt, FractionEnd, BelowSaturation,
         LiteralDigits, AllDigits, Pow, RoundsTo, InfinityWord;
    var s := LiteralDigits(text, o);
    var v, read, written := DecVal(s), ScaleOf(text, o), WrittenScale(text, o);
    PartsAreDigits(text, o);
    DecValBound(s);
    ScalesOfLiteral(text, o);
    if read > written {
      FarBelow(f, v, |s|, read);
    } else if read < written {
      FarAbove(f, v, read, written);
    }
  }

  lemma FarBelow(f: Format, v: int, n: nat, e: int)
    requires (f == DOUBLE || f == FLOAT) && ValidFormat(f) && 0 <= v < Pow(10, n) && e + n < -400
    ensures Vanishes(f, v, e)
  {
    hide Pow, RoundsTo, Vanishes;
    StandardBias();
    RangeIsWide();
    PowMonotonic(10, n, 19 + n);
    TinyIsZero(f, v, n, e, if f == DOUBLE then 324 else 47);
    ZeroExactly(f, v, e);
  }

  lemma FarAbove(f: Format, v: int, e: int, e': int)
    requires (f == DOUBLE || f == FLOAT) && ValidFormat(f) && 0 <= v && 400 < e
    ensures Overflows(f, v, e) || Vanishes(f, v, e')
  {
    hide Pow, RoundsTo, Overflows, Numerator, Denominator, InfinityWord;
    if v == 0 {
      NumeratorOfZero(f, e');
      NumeratorSign(f, v, e');
    } else {
      PowNone(10);
      StandardBias();
      RangeIsWide();
      if f == DOUBLE {
        PowAdd(2, 1024, 1075);
        MulMonotonic(Pow2(1075), Pow2(1024), Pow(10, 309));
        HugeIsInfinity(f, v, 0, e, 309);
      } else {
        PowAdd(2, 128, 150);
        MulMonotonic(Pow2(150), Pow2(128), Pow(10, 39));
        HugeIsInfinity(f, v, 0, e, 39);
      }
      InfinityExactly(f, v, e);
    }
  }

  // ---------- a literal with so many digits that the cut shows

  const ZEROS: nat := 0x1000_0000
  const POINT: byte := 46
  const LETTER: byte := 101
  const LONG_EXPONENT: Text := [50, 54, 56, 52, 51, 53, 52, 53, 54, 48]
  const ALL_NUMBERS := Options(true, true, false, false, POINT)

  /** 0.0...01e2684354560 with 2^28 zeros after the point. */
  function ManyZeros(): Text {
    [ZERO, POINT] + seq(ZEROS, _ => ZERO) + [49, LETTER] + LONG_EXPONENT
  }

  lemma LongExponent()
    ensures AllDigits(LONG_EXPONENT) && !BelowSaturation(LONG_EXPONENT)
    ensures DecVal(LONG_EXPONENT) == 2684354560 && Clamped(LONG_EXPONENT) == 268435456
  {
    hide BelowSaturation, Clamped, DecVal;
    var t: Text := [50, 54, 56, 52, 51, 53, 52, 53, 54];
    assert LONG_EXPONENT == t + [ZERO];
    NineDigits(t);
    ClampedIsExact(t);
    DecValPush(t, ZERO);
    ClampedPush(t, ZERO);
    NotBelow(LONG_EXPONENT, t);
  }

  lemma NineDigits(t: Text)
    requires t == [50, 54, 56, 52, 51, 53, 52, 53, 54]
    ensures DecVal(t) == 268435456 && DecVal(t[..8]) < EXPONENT_LIMIT
  {
    hide DecVal;
    DecValOfNone(t[..0]);
    DecValPush(t[..0], 50);
    DecValPush(t[..1], 54);
    DecValPush(t[..2], 56);
    DecValPush(t[..3], 52);
    DecValPush(t[..4], 51);
    DecValPush(t[..5], 53);
    DecValPush(t[..6], 52);
    DecValPush(t[..7], 53);
    DecValPush(t[..8], 54);
    assert t[..0] + [50] == t[..1] && t[..1] + [54] == t[..2] && t[..2] + [56] == t[..3] && t[..3] + [52] == t[..4];
    assert t[..4] + [51] == t[..5] && t[..5] + [53] == t[..6] && t[..6] + [52] == t[..7] && t[..7] + [53] == t[..8];
    assert t[..8] + [54] == t;
  }

  /** The parts of such a literal, for any number of zeros. */
  lemma PartsOfPadded(text: Text, n: nat)
    requires text == [ZERO, POINT] + seq(n, _ => ZERO) + [49, LETTER] + LONG_EXPONENT
    ensures IsLiteral(text, ALL_NUMBERS)
    ensures LiteralDigits(text, ALL_NUMBERS) == [ZERO] + seq(n, _ => ZERO) + [49]
    ensures |Fraction(text, ALL_NUMBERS)| == n + 1
    ensures ExponentAt(text, FractionEnd(text, ALL_NUMBERS), ALL_NUMBERS).Part?
    ensures ExponentAt(text, FractionEnd(text, ALL_NUMBERS), ALL_NUMBERS).digits == LONG_EXPONENT
    ensures !ExponentAt(text, FractionEnd(text, ALL_NUMBERS), ALL_NUMBERS).negative
  {
    hide ExponentAt, FractionEnd, Integer, Fraction, HasPoint, SignIsFollowed, HasDigits;
    var w := Pieces(false, [ZERO], true, seq(n, _ => ZERO) + [49], [LETTER], false, LONG_EXPONENT, []);
    PaddedIsSpelled(text, n, w);
    SpelledExactly(text, ALL_NUMBERS, w);
    assert [ZERO] + (seq(n, _ => ZERO) + [49]) == [ZERO] + seq(n, _ => ZERO) + [49];
  }

  lemma PaddedIsSpelled(text: Text, n: nat, w: Pieces)
    requires text == [ZERO, POINT] + seq(n, _ => ZERO) + [49, LETTER] + LONG_EXPONENT
    requires w == Pieces(false, [ZERO], true, seq(n, _ => ZERO) + [49], [LETTER], false, LONG_EXPONENT, [])
    ensures Spells(text, ALL_NUMBERS, w)
  {
    assert text == [] + w.integer + [POINT] + w.fraction + (w.mark + w.exponent + w.rest);
  }

  lemma ValueOfPadded(n: nat)
    ensures DecVal([ZERO] + seq(n, _ => ZERO) + [49]) == 1
  {
    hide DecVal;
    var zeros: Text := [ZERO] + seq(n, _ => ZERO);
    DecValOfZeros(zeros);
    DecValPush(zeros, 49);
  }

  /** This literal is read as 0.1 and is far beyond the largest float: no word is right for both. */
  lemma CutShows(f: Format)
    requires f == DOUBLE || f == FLOAT
    ensures ValidFormat(f) && ALL_NUMBERS.Valid()
    ensures var text := ManyZeros();
            && IsLiteral(text, ALL_NUMBERS) && DecVal(LiteralDigits(text, ALL_NUMBERS)) == 1
            && ScaleOf(text, ALL_NUMBERS) == -1 && WrittenScale(text, ALL_NUMBERS) == 2415919103
            && !RoundsAsWritten(f, text, ALL_NUMBERS)
            && forall word :: RoundsTo(f, 1, -1, word) ==> !RoundsTo(f, 1, 2415919103, word)
  {
    hide DecVal, RoundsTo, Vanishes, Overflows, IsLiteral, ExponentAt, FractionEnd, BelowSaturation, LiteralDigits, Clamped,
         Fraction, ManyZeros;
    var text := ManyZeros();
    StandardBias();
    PaddedText();
    PartsOfPadded(text, ZEROS);
    ValueOfPadded(ZEROS);
    LongExponent();
    NeitherEnd(f, 2415919103);
    forall word | RoundsTo(f, 1, -1, word)
      ensures !RoundsTo(f, 1, 2415919103, word)
    {
      CutRounds(f, text, ALL_NUMBERS, word);
    }
  }

  lemma PaddedText()
    ensures ManyZeros() == [ZERO, POINT] + seq(ZEROS, _ => ZERO) + [49, LETTER] + LONG_EXPONENT
  {
  }

  /** 0.1 does not overflow, and a one with zeros does not vanish. */
  lemma NeitherEnd(f: Format, e: nat)
    requires (f == DOUBLE || f == FLOAT) && ValidFormat(f)
    ensures !Overflows(f, 1, -1) && !Vanishes(f, 1, e)
  {
    hide Pow, Units, InfinityWord, Numerator, Denominator;
    StandardBias();
    HiddenPositive(f);
    DoubledNumerator(f, 1, -1);
    DoubledNumerator(f, 1, e);
    PowNone(10);
    UnitsOfInfinity(f);
    UnitsOfZero(f);
    UnitsMonotonic(f, 0, InfinityWord(f) - 1);
    PowStrictlyMonotonic(2, Bias(f), f.mantissaBits + f.infinitePower - 1);
    PowNext(2, f.mantissaBits + f.infinitePower - 1);
    MulMonotonic(Units(f, InfinityWord(f) - 1) + Units(f, InfinityWord(f)), 1, Denominator(-1));
    PowPositive(10, e);
    PowStrictlyMonotonic(2, 0, Bias(f));
    MulMonotonic(Pow2(Bias(f)), 1, Pow(10, e));
  }

  // ---------- the nearest float over the reals, in plain numbers

  /** What a word of a double or a float stands for: fraction bits, 2^52 or 2^23 in front of them if the
      exponent bits are not zero, and the bias. */
  ghost function FloatValue(f: Format, word: nat): real {
    var bits, bias := if f == DOUBLE then 52 else 23, if f == DOUBLE then 1075 else 150;
    PowPositive(2, bits);
    PowPositive(2, bias);
    var q, m := word / Pow2(bits), word % Pow2(bits);
    if q <= 0 then (2 * m) as real / Pow2(bias) as real else ((Pow2(bits) + m) * Pow2(q)) as real / Pow2(bias) as real
  }

  ghost function Decimal(v: int, e: int): real {
    v as real * Ten(e)
  }

  ghost function Distance(x: real, y: real): real {
    if x < y then y - x else x - y
  }

  /** No other word up to infinity is closer, and an equally close one means that this one is even. */
  ghost predicate IsNearestFloat(f: Format, x: real, word: int) {
    var infinity := if f == DOUBLE then 0x7FF0_0000_0000_0000 else 0x7F80_0000;
    && 0 <= word <= infinity
    && forall other :: 0 <= other <= infinity ==> NotCloser(f, x, word, other)
  }

  ghost predicate NotCloser(f: Format, x: real, word: nat, other: nat) {
    var d, d' := Distance(x, FloatValue(f, word)), Distance(x, FloatValue(f, other));
    d <= d' && (d == d' && other != word ==> word % 2 == 0)
  }

  lemma FormatsInNumbers()
    ensures ValidFormat(DOUBLE) && Hidden(DOUBLE) == 0x10_0000_0000_0000 && Bias(DOUBLE) == 1075
    ensures ValidFormat(FLOAT) && Hidden(FLOAT) == 0x80_0000 && Bias(FLOAT) == 150
    ensures Infinity(DOUBLE) == 0x7FF0_0000_0000_0000 && Infinity(FLOAT) == 0x7F80_0000
    ensures Hidden(DOUBLE) == Pow2(52) && Hidden(FLOAT) == Pow2(23)
  {
    assert Pow2(4) == 16;
    PowAdd(2, 4, 4);
    PowAdd(2, 8, 8);
    PowAdd(2, 16, 16);
    PowAdd(2, 32, 16);
    PowAdd(2, 48, 4);
    PowAdd(2, 16, 4);
    PowAdd(2, 20, 3);
    assert Pow2(3) == 8;
  }

  /** A word's units are its value. */
  lemma UnitsAreValue(f: Format, word: nat)
    requires (f == DOUBLE || f == FLOAT) && ValidFormat(f)
    ensures 0 < Pow2(Bias(f) - 1)
    ensures FloatValue(f, word) == Units(f, word) as real / Pow2(Bias(f) - 1) as real
  {
    hide Pow;
    FormatsInNumbers();
    PowPositive(2, Bias(f) - 1);
    PowNext(2, Bias(f) - 1);
    var h := Hidden(f);
    var q, m := word / h, word % h;
    HiddenInRange(f);
    if q <= 0 {
      HalvedFraction(m, Pow2(Bias(f) - 1));
    } else {
      PowNext(2, q - 1);
      MulAssociates(h + m, 2, Pow2(q - 1));
      MulCommutes(h + m, 2);
      MulAssociates(2, h + m, Pow2(q - 1));
      HalvedFraction((h + m) * Pow2(q - 1), Pow2(Bias(f) - 1));
    }
  }

  lemma HalvedFraction(a: int, b: int)
    requires 0 < b
    ensures (2 * a) as real / (2 * b) as real == a as real / b as real
  {
    var x, y := a as real, b as real;
    assert (2 * a) as real == 2.0 * x && (2 * b) as real == 2.0 * y;
    assert 2.0 * x / (2.0 * y) == x / y;
  }

  /** The number is Numerator / Denominator units. */
  lemma NumberInUnits(f: Format, v: int, e: int)
    requires ValidFormat(f)
    ensures 0 < Denominator(e) && 0 < Pow2(Bias(f) - 1)
    ensures Decimal(v, e) * (Denominator(e) * Pow2(Bias(f) - 1)) as real == Numerator(f, v, e) as real
  {
    hide Pow;
    var up, down, h := Pow(10, DC.Positive(e)), Pow(10, DC.Positive(-e)), Pow2(Bias(f) - 1);
    FractionParts(f, v, e);
    PowPositive(10, DC.Positive(e));
    PowPositive(10, DC.Positive(-e));
    PowPositive(2, Bias(f) - 1);
    TenTimesDown(e);
    assert (down * h) as real == down as real * h as real;
    assert (v * up * h) as real == v as real * up as real * h as real;
    assert Decimal(v, e) * (down as real * h as real) == v as real * (Ten(e) * down as real) * h as real;
  }

  lemma TenTimesDown(e: int)
    ensures Ten(e) * Pow(10, DC.Positive(-e)) as real == Pow(10, DC.Positive(e)) as real
  {
    PowNone(10);
    hide Pow;
    if e < 0 {
      var p := PowPos(-e);
      assert 1.0 / p * p == 1.0;
    }
  }

  /** Distances in units are distances of numbers, scaled. */
  lemma DistanceScales(f: Format, v: int, e: int, word: nat)
    requires (f == DOUBLE || f == FLOAT) && ValidFormat(f)
    ensures 0 < Denominator(e) * Pow2(Bias(f) - 1)
    ensures Abs(Numerator(f, v, e) - Denominator(e) * Units(f, word)) as real
            == Distance(Decimal(v, e), FloatValue(f, word)) * (Denominator(e) * Pow2(Bias(f) - 1)) as real
  {
    hide Units, Numerator, Denominator, Decimal, FloatValue, Pow;
    var x, d, h, u := Numerator(f, v, e), Denominator(e), Pow2(Bias(f) - 1), Units(f, word);
    UnitsAreValue(f, word);
    NumberInUnits(f, v, e);
    MulMonotonic(d, 1, h);
    var a, b, s := Decimal(v, e), FloatValue(f, word), (d * h) as real;
    ScaledFraction(u, h, d, b);
    DistanceTimes(a, b, s, x, d * u);
  }

  lemma ScaledFraction(u: int, h: int, d: int, b: real)
    requires 0 < h && b == u as real / h as real
    ensures b * (d * h) as real == (d * u) as real
  {
    assert (d * h) as real == d as real * h as real;
    assert (d * u) as real == d as real * u as real;
    assert b * h as real == u as real;
    assert b * (d as real * h as real) == d as real * (b * h as real);
  }

  lemma DistanceTimes(a: real, b: real, s: real, x: int, y: int)
    requires 0.0 < s && a * s == x as real && b * s == y as real
    ensures Abs(x - y) as real == Distance(a, b) * s
  {
    DifferenceTimes(a, b, s);
    DifferenceTimes(b, a, s);
    if a < b {
      RealOrder(a, b, s);
    } else {
      RealOrder(b, a, s);
    }
  }

  lemma DifferenceTimes(a: real, b: real, s: real)
    ensures (a - b) * s == a * s - b * s
  {
  }

  ghost predicate UnitsNotCloser(f: Format, x: int, d: int, word: nat, other: nat) {
    && Abs(x - d * Units(f, word)) <= Abs(x - d * Units(f, other))
    && (other != word && Abs(x - d * Units(f, word)) == Abs(x - d * Units(f, other)) ==> word % 2 == 0)
  }

  lemma NearestByOthers(f: Format, x: int, d: int, word: int)
    ensures IsNearest(f, x, d, word) <==>
            0 <= word <= Infinity(f) && forall other :: 0 <= other <= Infinity(f) ==> UnitsNotCloser(f, x, d, word, other)
  {
    hide Units, Infinity;
    if 0 <= word <= Infinity(f) && forall other :: 0 <= other <= Infinity(f) ==> UnitsNotCloser(f, x, d, word, other) {
      forall other | 0 <= other <= Infinity(f)
        ensures Abs(x - d * Units(f, word)) <= Abs(x - d * Units(f, other))
        ensures other != word && Abs(x - d * Units(f, word)) == Abs(x - d * Units(f, other)) ==> word % 2 == 0
      {
        assert UnitsNotCloser(f, x, d, word, other);
      }
    }
  }

  lemma OneOther(f: Format, v: int, e: int, x: real, word: nat, other: nat)
    requires (f == DOUBLE || f == FLOAT) && ValidFormat(f) && x == Decimal(v, e)
    ensures NotCloser(f, x, word, other) <==> UnitsNotCloser(f, Numerator(f, v, e), Denominator(e), word, other)
  {
    hide Units, Numerator, Denominator, Decimal, FloatValue, Pow, Distance;
    DistanceScales(f, v, e, word);
    DistanceScales(f, v, e, other);
    ScaledPair(Abs(Numerator(f, v, e) - Denominator(e) * Units(f, word)), Abs(Numerator(f, v, e) - Denominator(e) * Units(f, other)),
               Distance(x, FloatValue(f, word)), Distance(x, FloatValue(f, other)),
               (Denominator(e) * Pow2(Bias(f) - 1)) as real);
  }

  /** Rounding in units is rounding the number to the nearest float. */
  lemma RoundsToNearestFloat(f: Format, v: int, e: int, word: int)
    requires (f == DOUBLE || f == FLOAT) && ValidFormat(f)
    ensures RoundsTo(f, v, e, word) <==> IsNearestFloat(f, Decimal(v, e), word)
  {
    hide Numerator, Denominator, Decimal, NotCloser, UnitsNotCloser, IsNearest, Infinity;
    FormatsInNumbers();
    Unfolded(f, v, e, word);
    NearestByOthers(f, Numerator(f, v, e), Denominator(e), word);
    var x := Decimal(v, e);
    if RoundsTo(f, v, e, word) {
      forall other | 0 <= other <= Infinity(f)
        ensures NotCloser(f, x, word, other)
      {
        OneOther(f, v, e, x, word, other);
      }
    }
    if IsNearestFloat(f, x, word) {
      forall other | 0 <= other <= Infinity(f)
        ensures UnitsNotCloser(f, Numerator(f, v, e), Denominator(e), word, other)
      {
        OneOther(f, v, e, x, word, other);
      }
    }
  }

  lemma ScaledPair(a: int, a': int, d: real, d': real, s: real)
    requires 0.0 < s && a as real == d * s && a' as real == d' * s
    ensures d <= d' <==> a <= a'
    ensures d == d' <==> a == a'
  {
    if d < d' {
      RealOrder(d, d', s);
    } else if d' < d {
      RealOrder(d', d, s);
    }
  }

  // ---------- the whole

  /** The approximation that is made for a scan is good enough for the comparison. */
  ghost predicate Approximates(f: Format, approximation: (int, int) -> AdjustedMantissa, r: Scan, s: Text, e: int)
    requires ValidFormat(f) && r.Accepted?
  {
    var am := approximation(r.exponent, r.mantissa);
    DC.Extended(f, am) && (HasFractionalDigits(s, e, f) ==> LiesAbove(f, DecVal(s), e, am))
  }

  /** The exponent is not cut, or there are too few digits for a cut to show. */
  ghost predicate WrittenIsRead(text: Text, o: Options)
    requires IsLiteral(text, o)
  {
    || BelowSaturation(ExponentAt(text, FractionEnd(text, o), o).digits)
    || |LiteralDigits(text, o)| + 400 < EXPONENT_LIMIT
  }

  /** From text to the nearest float, by the comparison of big integers for every literal whose exponent
      is in the range of the table. The answer is the nearest float at the scale that the scanner
      accumulates, and at the written scale exactly when RoundsAsWritten holds: always for an exponent
      that is not cut, and always for less than 2^28 - 400 digits. */
  method RoundLiteral(text: Text, o: Options, f: Format, approximation: (int, int) -> AdjustedMantissa)
    returns (num: Scan, answer: AdjustedMantissa)
    requires |text| > 0 && o.Valid() && (f == DOUBLE || f == FLOAT) && ValidFormat(f)
    requires IsLiteral(text, o) ==>
               forall r: Scan :: IsScanOf(r, text, o) && r.mantissa != 0 && SmallestPower(f) <= r.exponent <= LargestPower(f)
                 ==> Approximates(f, approximation, r, LiteralDigits(text, o), ScaleOf(text, o))
    ensures IsScanOf(num, text, o)
    ensures num.Accepted? ==>
              && 0 <= answer.mantissa && 0 <= answer.power2
              && var v, word := DecVal(LiteralDigits(text, o)), ToWord(f, answer);
              && RoundsTo(f, v, ScaleOf(text, o), word)
              && (RoundsTo(f, v, WrittenScale(text, o), word) <==> RoundsAsWritten(f, text, o))
              && (WrittenIsRead(text, o) ==> RoundsTo(f, v, WrittenScale(text, o), word))
    ensures forall w :: Spells(text, o, w) ==>
              && ReadsPieces(num, w, |text| - |w.rest|)
              && 0 <= answer.mantissa && 0 <= answer.power2
              && (ExponentIsShort(w.exponent) || |w.integer| + |w.fraction| < 268435056 ==>
                    IsNearestFloat(f, Decimal(DecVal(w.integer + w.fraction), w.Scale()), ToWord(f, answer)))
  {
    hide DecVal, Clamped, LiesAbove, HasFractionalDigits, RoundsTo, Keeps, AllDigits, ToWord, IsLiteral, ExponentAt,
         FractionEnd, Fraction, Integer, Pow, DC.Extended, InfinityWord, Vanishes, Overflows, WrittenScale,
         BelowSaturation, Spells, ReadsPieces, IsNearestFloat, Decimal, ExponentIsShort;
    num := ParseNumber(text, o);
    answer := AdjustedMantissa(0, 0);
    if num.Accepted? {
      PartsAreDigits(text, o);
      ExtremeWords(f);
      ghost var s, scale := LiteralDigits(text, o), ScaleOf(text, o);
      OutsideRange(f, s, num.mantissa, num.exponent - scale, num.tooManyDigits, scale);
      if num.mantissa == 0 || num.exponent < SmallestPower(f) {
        assert RoundsTo(f, DecVal(s), scale, ToWord(f, answer));
      } else if num.exponent > LargestPower(f) {
        answer := AdjustedMantissa(0, f.infinitePower);
      } else {
        assert Approximates(f, approximation, num, s, scale);
        answer := DigitComp(num, approximation(num.exponent, num.mantissa), f, scale);
      }
      CutRounds(f, text, o, ToWord(f, answer));
      if |s| + 400 < EXPONENT_LIMIT {
        ShortIsAsWritten(f, text, o);
      }
      ShortIsWritten(text, o);
    }
    forall w | Spells(text, o, w)
      ensures num.Accepted? && 0 <= answer.mantissa && 0 <= answer.power2
      ensures ReadsPieces(num, w, |text| - |w.rest|)
      ensures ExponentIsShort(w.exponent) || |w.integer| + |w.fraction| < 268435056 ==>
                IsNearestFloat(f, Decimal(DecVal(w.integer + w.fraction), w.Scale()), ToWord(f, answer))
    {
      NearestToPieces(f, text, o, w, ToWord(f, answer));
    }
  }

  lemma ShortIsWritten(text: Text, o: Options)
    requires IsLiteral(text, o)
    ensures BelowSaturation(ExponentAt(text, FractionEnd(text, o), o).digits) ==> WrittenIsRead(text, o)
  {
  }

  /** The rounding of a literal, in terms of its pieces. */
  lemma NearestToPieces(f: Format, text: Text, o: Options, w: Pieces, word: int)
    requires (f == DOUBLE || f == FLOAT) && ValidFormat(f) && o.Valid() && Spells(text, o, w)
    requires IsLiteral(text, o) && WrittenIsRead(text, o) ==>
               RoundsTo(f, DecVal(LiteralDigits(text, o)), WrittenScale(text, o), word)
    ensures IsLiteral(text, o)
    ensures ExponentIsShort(w.exponent) || |w.integer| + |w.fraction| < 268435056 ==>
              IsNearestFloat(f, Decimal(DecVal(w.integer + w.fraction), w.Scale()), word)
  {
    hide DecVal, RoundsTo, Spells, IsNearestFloat, Decimal, ExponentAt, FractionEnd, Fraction, Integer, SignIsFollowed, HasDigits;
    SpelledExactly(text, o, w);
    assert LiteralDigits(text, o) == w.integer + w.fraction && WrittenScale(text, o) == w.Scale();
    assert ExponentIsShort(w.exponent) <==> BelowSaturation(ExponentAt(text, FractionEnd(text, o), o).digits);
    RoundsToNearestFloat(f, DecVal(w.integer + w.fraction), w.Scale(), word);
    if ExponentIsShort(w.exponent) || |w.integer| + |w.fraction| < 268435056 {
      assert WrittenIsRead(text, o);
      assert RoundsTo(f, DecVal(LiteralDigits(text, o)), WrittenScale(text, o), word);
      assert RoundsTo(f, DecVal(w.integer + w.fraction), w.Scale(), word);
    }
  }
}
