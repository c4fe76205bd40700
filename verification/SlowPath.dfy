/** The slow path as a whole: from the digits of a literal of any length to the nearest float. */
module SlowPath {
  import opened Powers
  import opened Bits
  import opened BigInt
  import opened Digits
  import opened Rounding
  import opened NumberText
  import opened Mantissa
  import DC = DigitComparison

  // ---------- decimal numbers v * 10^e in units of a format

  /** v * 10^e is Numerator / Denominator units. */
  ghost function Numerator(f: Format, v: int, e: int): int
    requires ValidFormat(f)
  {
    v * Pow(10, DC.Positive(e)) * Pow2(Bias(f) - 1)
  }

  ghost function Denominator(e: int): int {
    Pow(10, DC.Positive(-e))
  }

  /** word is the correctly rounded v * 10^e. */
  ghost predicate RoundsTo(f: Format, v: int, e: int, word: int)
    requires ValidFormat(f)
  {
    IsNearest(f, Numerator(f, v, e), Denominator(e), word)
  }

  /** v * 10^e lies between word and the next. */
  ghost predicate LiesAt(f: Format, v: int, e: int, word: int)
    requires ValidFormat(f) && 0 <= word
  {
    DC.Brackets(f, Numerator(f, v, e), Denominator(e), word)
  }

  // ---------- equal fractions round alike

  lemma EqualFractions(f: Format, x: int, d: int, x': int, d': int, word: int)
    requires 0 < d && 0 < d' && x * d' == x' * d && IsNearest(f, x, d, word)
    ensures IsNearest(f, x', d', word)
  {
    hide Units;
    assert IsNearest(f, d * x', d * d', word) by {
      forall other | 0 <= other <= Infinity(f)
        ensures Abs(d * x' - d * d' * Units(f, word)) <= Abs(d * x' - d * d' * Units(f, other))
        ensures other != word && Abs(d * x' - d * d' * Units(f, word)) == Abs(d * x' - d * d' * Units(f, other)) ==> word % 2 == 0
      {
        ScaledUp(d, d', x, x', Units(f, word));
        ScaledUp(d, d', x, x', Units(f, other));
        MulOrder(d', Abs(x - d * Units(f, word)), Abs(x - d * Units(f, other)));
        MulOrder(d', Abs(x - d * Units(f, other)), Abs(x - d * Units(f, word)));
      }
    }
    NearestUnscaled(f, d, x', d', word);
  }

  lemma ScaledUp(d: int, d': int, x: int, x': int, u: int)
    requires 0 < d && 0 < d' && x * d' == x' * d
    ensures Abs(d * x' - d * d' * u) == d' * Abs(x - d * u)
  {
    ScaledAbs(d', x, d, u);
    MulCommutes(d, d');
    MulCommutes(d, x');
    MulCommutes(d', x);
  }

  lemma EqualFractionsLie(f: Format, x: int, d: int, x': int, d': int, word: int)
    requires 0 < d && 0 < d' && x * d' == x' * d && 0 <= word && DC.Brackets(f, x, d, word)
    ensures DC.Brackets(f, x', d', word)
  {
    hide Units;
    ScaledSide(d, d', x, x', Units(f, word));
    ScaledSide(d, d', x, x', Units(f, word + 1));
  }

  lemma ScaledSide(d: int, d': int, x: int, x': int, u: int)
    requires 0 < d && 0 < d' && x * d' == x' * d
    ensures d * u <= x <==> d' * u <= x'
    ensures x <= d * u <==> x' <= d' * u
  {
    MulOrder(d', d * u, x);
    MulOrder(d', x, d * u);
    MulOrder(d, d' * u, x');
    MulOrder(d, x', d' * u);
    assert d' * (d * u) == d * (d' * u) by {
      MulAssociates(d', d, u);
      MulAssociates(d, d', u);
      MulCommutes(d, d');
    }
    MulCommutes(d', x);
    MulCommutes(d, x');
  }

  /** Moving a power of ten from the exponent into the number. */
  lemma Rescaled(f: Format, v: int, e: int, g: nat)
    requires ValidFormat(f)
    ensures 0 < Denominator(e) && 0 < Denominator(e + g)
    ensures Numerator(f, v, e + g) * Denominator(e) == Numerator(f, v * Pow(10, g), e) * Denominator(e + g)
  {
    hide *;
    var a, b, a', b' := DC.Positive(e + g), DC.Positive(-e), DC.Positive(e), DC.Positive(-(e + g));
    PowPositive(10, b);
    PowPositive(10, b');
    ExponentsMeet(e, g);
    PowAdd(10, a, b);
    PowAdd(10, g, a');
    PowAdd(10, g + a', b');
    FractionParts(f, v, e + g);
    FractionParts(f, v * Pow(10, g), e);
    RescaledProducts(v, Pow(10, a), Pow(10, b), Pow(10, g), Pow(10, a'), Pow(10, b'), Pow2(Bias(f) - 1));
  }

  lemma ExponentsMeet(e: int, g: nat)
    ensures DC.Positive(e + g) + DC.Positive(-e) == g + DC.Positive(e) + DC.Positive(-(e + g))
  {
  }

  lemma FractionParts(f: Format, v: int, e: int)
    requires ValidFormat(f)
    ensures 0 <= Bias(f) - 1
    ensures Numerator(f, v, e) == v * Pow(10, DC.Positive(e)) * Pow2(Bias(f) - 1) && Denominator(e) == Pow(10, DC.Positive(-e))
  {
    hide Pow;
  }

  lemma RescaledProducts(v: int, a: int, b: int, g: int, a': int, b': int, h: int)
    requires a * b == g * a' * b'
    ensures v * a * h * b == v * g * a' * h * b'
  {
    calc {
      v * a * h * b;
    == { MulAssociates(v * a, h, b); MulCommutes(h, b); MulAssociates(v * a, b, h); MulAssociates(v, a, b); }
      v * (a * b) * h;
    == { MulAssociates(g, a', b'); MulAssociates(v, g, a' * b'); MulAssociates(v * g, a', b'); }
      v * g * a' * b' * h;
    == { MulAssociates(v * g * a', b', h); MulCommutes(b', h); MulAssociates(v * g * a', h, b'); }
      v * g * a' * h * b';
    }
  }

  lemma ShiftsTogether(f: Format, v: int, e: int, g: nat, word: int)
    requires ValidFormat(f) && 0 <= word
    ensures RoundsTo(f, v, e + g, word) <==> RoundsTo(f, v * Pow(10, g), e, word)
    ensures LiesAt(f, v, e + g, word) <==> LiesAt(f, v * Pow(10, g), e, word)
  {
    hide Numerator, Denominator, IsNearest, DC.Brackets, Pow;
    Rescaled(f, v, e, g);
    var x, d := Numerator(f, v, e + g), Denominator(e + g);
    var x', d' := Numerator(f, v * Pow(10, g), e), Denominator(e);
    if RoundsTo(f, v, e + g, word) {
      EqualFractions(f, x, d, x', d', word);
    }
    if RoundsTo(f, v * Pow(10, g), e, word) {
      EqualFractions(f, x', d', x, d, word);
    }
    if LiesAt(f, v, e + g, word) {
      EqualFractionsLie(f, x, d, x', d', word);
    }
    if LiesAt(f, v * Pow(10, g), e, word) {
      EqualFractionsLie(f, x', d', x, d, word);
    }
  }

  // ---------- no float and no midpoint has as many digits as are kept

  /** max digits are enough for the format. */
  ghost predicate EnoughDigits(f: Format, max: nat)
    requires ValidFormat(f)
  {
    && 0 < max
    && 4 * Hidden(f) * Pow(5, Bias(f) - 1) <= Pow(10, max - 1)
    && 2 * Units(f, InfinityWord(f)) <= Pow(10, max - 1) * Pow2(Bias(f))
  }

  function InfinityWord(f: Format): nat {
    MulMonotonic(Hidden(f), 0, f.infinitePower);
    Infinity(f)
  }

  lemma NoIntegerBetween(d: int, x: int, p: int)
    requires 0 < p
    ensures !(d * p < x * p < (d + 1) * p)
  {
    MulOrder(p, d, x);
    MulOrder(p, x, d + 1);
  }

  /** Cancelling a common positive factor from a strict bracket. */
  lemma CancelFactor(d: int, w: int, x: int, k: int)
    requires 0 < k
    ensures d * (w * k) < x * k <==> d * w < x
    ensures x * k < d * (w * k) <==> x < d * w
  {
    MulAssociates(d, w, k);
    MulOrder(k, d * w, x);
    MulOrder(k, x, d * w);
  }

  /** A point m * 2^j that is not too large does not lie strictly between d * 10^p and (d + 1) * 10^p,
      in units of 2^-bias / 10^q, once d has max digits. */
  lemma NoPointInside(f: Format, max: nat, d: int, p: nat, q: nat, m: int, j: nat)
    requires ValidFormat(f) && EnoughDigits(f, max) && 0 < max && Pow(10, max - 1) <= d
    requires 0 <= m <= 4 * Hidden(f) && m * Pow2(j) <= 2 * Units(f, InfinityWord(f))
    ensures !(d * (Pow2(Bias(f)) * Pow(10, p)) < m * Pow2(j) * Pow(10, q) < (d + 1) * (Pow2(Bias(f)) * Pow(10, p)))
  {
    hide Pow, Units, Hidden, InfinityWord;
    PowPositive(10, p);
    PowPositive(10, q);
    PowPositive(2, Bias(f));
    PowPositive(10, max - 1);
    var b, x := Pow2(Bias(f)), m * Pow2(j);
    if q <= p {
      PowAdd(10, p - q, q);
      PowPositive(10, p - q);
      LargePointsAreBelow(d, b, Pow(10, p - q), Pow(10, q), x, Pow(10, max - 1));
    } else {
      var n := q - p;
      PowAdd(10, n, p);
      MulAssociates(x, Pow(10, n), Pow(10, p));
      CancelFactor(d, b, x * Pow(10, n), Pow(10, p));
      CancelFactor(d + 1, b, x * Pow(10, n), Pow(10, p));
      SmallPointsAreWhole(f, max, d, n, m, j);
    }
  }

  lemma LargePointsAreBelow(d: int, b: int, g: int, h: int, x: int, least: int)
    requires 0 < b && 0 < g && 0 < h && 0 < least <= d && x <= least * b
    ensures x * h <= d * (b * (g * h))
  {
    MulMonotonic(b, least, d);
    MulMonotonic(d * b, 1, g);
    MulOrder(h, x, d * b * g);
    MulAssociates(d, b, g * h);
    MulAssociates(d * b, g, h);
  }

  lemma SmallPointsAreWhole(f: Format, max: nat, d: int, n: nat, m: int, j: nat)
    requires ValidFormat(f) && EnoughDigits(f, max) && 0 < max && Pow(10, max - 1) <= d && 0 <= m <= 4 * Hidden(f)
    ensures !(d * Pow2(Bias(f)) < m * Pow2(j) * Pow(10, n) < (d + 1) * Pow2(Bias(f)))
  {
    hide Pow, Units, Hidden, InfinityWord;
    var bias := Bias(f);
    var t := Pow(10, n);
    if bias <= j {
      PowAdd(2, j - bias, bias);
      PowPositive(2, bias);
      var w := Pow2(j - bias);
      assert m * Pow2(j) * t == m * w * t * Pow2(bias) by {
        MulAssociates(m, w, Pow2(bias));
        MulAssociates(m * w, Pow2(bias), t);
        MulCommutes(Pow2(bias), t);
        MulAssociates(m * w, t, Pow2(bias));
      }
      NoIntegerBetween(d, m * w * t, Pow2(bias));
    } else {
      var k := bias - j;
      PowAdd(2, k, j);
      PowPositive(2, j);
      MulAssociates(m, Pow2(j), t);
      MulCommutes(Pow2(j), t);
      MulAssociates(m, t, Pow2(j));
      CancelFactor(d, Pow2(k), m * t, Pow2(j));
      CancelFactor(d + 1, Pow2(k), m * t, Pow2(j));
      TenIsFiveTwo(m, n);
      if k <= n {
        PowAdd(2, n - k, k);
        PowPositive(2, k);
        MulAssociates(m * Pow(5, n), Pow2(n - k), Pow2(k));
        NoIntegerBetween(d, m * Pow(5, n) * Pow2(n - k), Pow2(k));
      } else {
        PowAdd(2, k - n, n);
        PowPositive(2, n);
        CancelFactor(d, Pow2(k - n), m * Pow(5, n), Pow2(n));
        FewDigitsBeforePoint(f, max, d, n, k - n, m);
      }
    }
  }

  lemma TenIsFiveTwo(m: int, n: nat)
    ensures m * Pow(10, n) == m * Pow(5, n) * Pow2(n)
  {
    PowOfProduct(5, 2, n);
    MulAssociates(m, Pow(5, n), Pow2(n));
  }

  lemma FewDigitsBeforePoint(f: Format, max: nat, d: int, n: nat, i: nat, m: int)
    requires ValidFormat(f) && EnoughDigits(f, max) && 0 < max && Pow(10, max - 1) <= d && 0 <= m <= 4 * Hidden(f) && n + 1 <= Bias(f)
    ensures m * Pow(5, n) <= d * Pow2(i)
  {
    hide Pow, Units, Hidden, InfinityWord;
    PowMonotonic(5, n, Bias(f) - 1);
    PowPositive(5, n);
    PowPositive(2, i);
    PowPositive(10, max - 1);
    MulMonotonic(Pow(5, n), m, 4 * Hidden(f));
    MulMonotonic(4 * Hidden(f), Pow(5, n), Pow(5, Bias(f) - 1));
    MulMonotonic(d, 1, Pow2(i));
  }

  lemma {:induction false} FivesBelowTwos(k: nat)
    ensures Pow(5, 3 * k) <= Pow2(7 * k)
  {
    assert Pow(5, 3) == 125 && Pow2(7) == 128;
    PowOfPow(5, 3, k);
    PowOfPow(2, 7, k);
    PowBaseMonotonic(125, 128, k);
  }

  /** 5^3 < 2^7 and 10 > 2^3 are all it takes. */
  lemma EnoughByExponents(f: Format, max: nat, k: nat)
    requires ValidFormat(f) && 0 < max && Bias(f) - max == 3 * k && 2 + f.mantissaBits + 7 * k <= max - 1
    requires f.mantissaBits + f.infinitePower <= 3 * (max - 1) + Bias(f)
    ensures EnoughDigits(f, max)
  {
    hide Pow, Units;
    var n := max - 1;
    PowOfProduct(5, 2, n);
    PowAdd(5, n, 3 * k);
    FivesBelowTwos(k);
    PowAdd(2, 2 + f.mantissaBits, 7 * k);
    PowMonotonic(2, 2 + f.mantissaBits + 7 * k, n);
    FourHidden(f);
    FivesFit(4 * Hidden(f), Pow(5, n), Pow(5, 3 * k), Pow2(7 * k), Pow2(n));
    UnitsOfInfinity(f);
    PowMonotonic(2, f.mantissaBits + f.infinitePower, 3 * n + Bias(f));
    PowAdd(2, 3 * n, Bias(f));
    EightBelowTen(n);
    MulMonotonic(Pow2(Bias(f)), Pow2(3 * n), Pow(10, n));
  }

  lemma FivesFit(h: nat, a: nat, b: nat, c: nat, t: nat)
    requires b <= c && h * c <= t
    ensures h * (a * b) <= a * t
  {
    MulMonotonic(h, b, c);
    MulMonotonic(a, h * b, t);
    assert h * (a * b) == a * (h * b) by {
      MulAssociates(h, a, b);
      MulAssociates(a, h, b);
      MulCommutes(h, a);
    }
  }

  lemma FourHidden(f: Format)
    ensures 4 * Hidden(f) == Pow2(2 + f.mantissaBits)
  {
    PowAdd(2, 2, f.mantissaBits);
    assert Pow2(2) == 4;
  }

  lemma EightBelowTen(n: nat)
    ensures Pow2(3 * n) <= Pow(10, n)
  {
    assert Pow2(3) == 8;
    PowOfPow(2, 3, n);
    PowBaseMonotonic(8, 10, n);
  }

  lemma UnitsOfInfinity(f: Format)
    requires ValidFormat(f)
    ensures 2 * Units(f, InfinityWord(f)) == Pow2(f.mantissaBits + f.infinitePower)
  {
    hide Units;
    var p := Hidden(f);
    MulDistributes(p, f.infinitePower, -1);
    UnitsOfPair(f, f.infinitePower, p);
    PowAdd(2, f.mantissaBits, f.infinitePower - 1);
    PowNext(2, f.mantissaBits + f.infinitePower - 1);
  }

  /** 769 digits for a double and 114 for a float. */
  lemma StandardDigits()
    ensures EnoughDigits(DOUBLE, 769) && EnoughDigits(FLOAT, 114)
  {
    hide EnoughDigits;
    EnoughByExponents(DOUBLE, 769, 102);
    EnoughByExponents(FLOAT, 114, 12);
  }

  // ---------- cutting digits does not change the rounding

  lemma HiddenPositive(f: Format)
    requires ValidFormat(f)
    ensures 2 <= Hidden(f) <= InfinityWord(f)
  {
    HiddenInRange(f);
    MulMonotonic(Hidden(f), 1, f.infinitePower);
  }

  /** Twice the magnitude of a word is a small mantissa times a power of two. */
  lemma WordIsPoint(f: Format, word: int) returns (m: int, j: nat)
    requires ValidFormat(f) && 0 <= word <= InfinityWord(f)
    ensures 0 <= m <= 4 * Hidden(f) && m * Pow2(j) == 2 * Units(f, word) <= 2 * Units(f, InfinityWord(f))
  {
    hide Units, Pow;
    UnitsMonotonic(f, word, InfinityWord(f));
    HiddenPositive(f);
    if word < Hidden(f) {
      UnitsOfDenormal(f, word);
      TwoToTheOne();
      return word, 1;
    } else {
      var power, mantissa := WordAsPair(f, word);
      UnitsOfPair(f, power, mantissa);
      PowNext(2, power - 1);
      MulAssociates(mantissa, 2, Pow2(power - 1));
      return mantissa, power;
    }
  }

  lemma TwoToTheOne()
    ensures Pow2(1) == 2
  {
  }

  /** The sum of neighbouring magnitudes is such a point too. */
  lemma MidpointIsPoint(f: Format, word: int) returns (m: int, j: nat)
    requires ValidFormat(f) && 0 <= word < InfinityWord(f)
    ensures 0 <= m <= 4 * Hidden(f)
    ensures m * Pow2(j) == Units(f, word) + Units(f, word + 1) <= 2 * Units(f, InfinityWord(f))
  {
    hide Units, Pow, DC.ToExtendedHalfway;
    UnitsMonotonic(f, word, InfinityWord(f));
    UnitsMonotonic(f, word + 1, InfinityWord(f));
    DC.HalfwayIsMidpoint(f, word);
    var h := DC.ToExtendedHalfway(f, word);
    return h.mantissa, h.power2 + Bias(f);
  }

  /** The numbers that begin with the digits d, followed by c more that are not all zero. */
  ghost predicate BeginsWith(v: int, d: int, c: nat) {
    d * Pow(10, c) < v < (d + 1) * Pow(10, c)
  }

  /** All of them lie on the same side of every point. */
  lemma SameSide(f: Format, max: nat, d: int, c: nat, e: int, v: int, m: int, j: nat)
    requires ValidFormat(f) && EnoughDigits(f, max) && 0 < max && Pow(10, max - 1) <= d && BeginsWith(v, d, c)
    requires 0 <= m <= 4 * Hidden(f) && m * Pow2(j) <= 2 * Units(f, InfinityWord(f))
    ensures var side := Denominator(e) * (m * Pow2(j));
            if d * (Pow2(Bias(f)) * Pow(10, c + DC.Positive(e))) < side then 2 * Numerator(f, v, e) < side
            else side < 2 * Numerator(f, v, e)
  {
    hide Pow, Units, Hidden, InfinityWord, EnoughDigits;
    var p := c + DC.Positive(e);
    NoPointInside(f, max, d, p, DC.Positive(-e), m, j);
    DoubledNumerator(f, v, e);
    PowAdd(10, c, DC.Positive(e));
    PowPositive(10, DC.Positive(e));
    PowPositive(2, Bias(f));
    MulCommutes(Denominator(e), m * Pow2(j));
    StrictlyScaled(d, Pow(10, c), v, Pow(10, DC.Positive(e)), Pow2(Bias(f)));
    StrictlyScaled(d + 1, Pow(10, c), v, Pow(10, DC.Positive(e)), Pow2(Bias(f)));
  }

  lemma SameSides(f: Format, max: nat, d: int, c: nat, e: int, v: int, v': int, m: int, j: nat, point: int)
    requires ValidFormat(f) && EnoughDigits(f, max) && 0 < max
    requires Pow(10, max - 1) <= d && BeginsWith(v, d, c) && BeginsWith(v', d, c)
    requires 0 <= m <= 4 * Hidden(f) && m * Pow2(j) == point <= 2 * Units(f, InfinityWord(f))
    ensures 2 * Numerator(f, v, e) < Denominator(e) * point <==> 2 * Numerator(f, v', e) < Denominator(e) * point
    ensures 2 * Numerator(f, v', e) != Denominator(e) * point
    ensures 2 * Numerator(f, v, e) != Denominator(e) * point
  {
    hide *;
    SameSide(f, max, d, c, e, v, m, j);
    SameSide(f, max, d, c, e, v', m, j);
  }

  lemma StrictlyScaled(d: int, p: int, v: int, a: int, b: int)
    requires 0 < a && 0 < b
    ensures d * p < v <==> d * (b * (p * a)) < v * a * b
    ensures v < d * p <==> v * a * b < d * (b * (p * a))
  {
    assert d * (b * (p * a)) == d * p * (a * b) by {
      MulCommutes(b, p * a);
      MulAssociates(p, a, b);
      MulAssociates(d, p, a * b);
    }
    MulAssociates(v, a, b);
    MulOrder(a, 0, b);
    MulOrder(a * b, d * p, v);
    MulOrder(a * b, v, d * p);
  }

  lemma DoubledNumerator(f: Format, v: int, e: int)
    requires ValidFormat(f)
    ensures 2 * Numerator(f, v, e) == v * Pow(10, DC.Positive(e)) * Pow2(Bias(f))
    ensures Denominator(e) == Pow(10, DC.Positive(-e)) && 0 < Denominator(e)
  {
    hide *;
    PowPositive(10, DC.Positive(-e));
    FractionParts(f, v, e);
    PowNext(2, Bias(f) - 1);
    MulAssociates(v * Pow(10, DC.Positive(e)), 2, Pow2(Bias(f) - 1));
    MulCommutes(v * Pow(10, DC.Positive(e)), 2);
    MulAssociates(2, v * Pow(10, DC.Positive(e)), Pow2(Bias(f) - 1));
  }

  lemma SameNearest(f: Format, max: nat, d: int, c: nat, e: int, v: int, v': int, word: int)
    requires ValidFormat(f) && EnoughDigits(f, max) && 0 < max && Pow(10, max - 1) <= d && BeginsWith(v, d, c) && BeginsWith(v', d, c)
    requires RoundsTo(f, v, e, word)
    ensures RoundsTo(f, v', e, word)
  {
    hide *;
    var x', n := Numerator(f, v', e), Denominator(e);
    DoubledNumerator(f, v, e);
    Unfolded(f, v, e, word);
    NearestNeighbours(f, Numerator(f, v, e), n, word);
    if word < InfinityWord(f) {
      var m, j := MidpointIsPoint(f, word);
      SameSides(f, max, d, c, e, v, v', m, j, Units(f, word) + Units(f, word + 1));
    }
    if 0 < word {
      var m, j := MidpointIsPoint(f, word - 1);
      SameSides(f, max, d, c, e, v, v', m, j, Units(f, word - 1) + Units(f, word));
    }
    InsideMidpoints(f, x', n, word);
    Unfolded(f, v', e, word);
  }

  lemma Unfolded(f: Format, v: int, e: int, word: int)
    requires ValidFormat(f)
    ensures RoundsTo(f, v, e, word) <==> IsNearest(f, Numerator(f, v, e), Denominator(e), word)
    ensures 0 <= word ==> (LiesAt(f, v, e, word) <==> DC.Brackets(f, Numerator(f, v, e), Denominator(e), word))
    ensures InfinityWord(f) == Infinity(f)
  {
    hide IsNearest, DC.Brackets, Numerator, Denominator;
  }

  /** The nearest word lies within the midpoints to its neighbours. */
  lemma NearestNeighbours(f: Format, x: int, n: int, word: int)
    requires ValidFormat(f) && 0 < n && IsNearest(f, x, n, word)
    ensures 0 <= word <= InfinityWord(f)
    ensures word < InfinityWord(f) ==> 2 * x <= n * (Units(f, word) + Units(f, word + 1))
    ensures 0 < word ==> n * (Units(f, word - 1) + Units(f, word)) <= 2 * x
  {
    hide Units;
    if word < InfinityWord(f) {
      UnitsStep(f, word);
      MulOrder(n, Units(f, word), Units(f, word + 1));
      MulDistributes(n, Units(f, word), Units(f, word + 1));
      assert Abs(x - n * Units(f, word)) <= Abs(x - n * Units(f, word + 1));
    }
    if 0 < word {
      UnitsStep(f, word - 1);
      MulOrder(n, Units(f, word - 1), Units(f, word));
      MulDistributes(n, Units(f, word - 1), Units(f, word));
      assert Abs(x - n * Units(f, word)) <= Abs(x - n * Units(f, word - 1));
    }
  }

  /** Strictly within the midpoints to its neighbours a word is the only nearest one. */
  lemma InsideMidpoints(f: Format, x: int, n: int, word: int)
    requires ValidFormat(f) && 0 < n && 0 <= word <= InfinityWord(f)
    requires word < InfinityWord(f) ==> 2 * x < n * (Units(f, word) + Units(f, word + 1))
    requires 0 < word ==> n * (Units(f, word - 1) + Units(f, word)) < 2 * x
    ensures IsNearest(f, x, n, word)
  {
    hide Units;
    forall other | 0 <= other <= Infinity(f) && other != word
      ensures Abs(x - n * Units(f, word)) < Abs(x - n * Units(f, other))
    {
      if word < other {
        UnitsMonotonic(f, word + 1, other);
        MulOrder(n, Units(f, word + 1), Units(f, other));
        MulDistributes(n, Units(f, word), Units(f, word + 1));
        UnitsStep(f, word);
        MulOrder(n, Units(f, word), Units(f, word + 1));
      } else {
        UnitsMonotonic(f, other, word - 1);
        MulOrder(n, Units(f, other), Units(f, word - 1));
        MulDistributes(n, Units(f, word - 1), Units(f, word));
        UnitsStep(f, word - 1);
        MulOrder(n, Units(f, word - 1), Units(f, word));
      }
    }
  }

  lemma SamePlace(f: Format, max: nat, d: int, c: nat, e: int, v: int, v': int, word: int)
    requires ValidFormat(f) && EnoughDigits(f, max) && 0 < max && Pow(10, max - 1) <= d && BeginsWith(v, d, c) && BeginsWith(v', d, c)
    requires 0 <= word <= InfinityWord(f) && LiesAt(f, v, e, word)
    ensures LiesAt(f, v', e, word)
  {
    hide *;
    var n := Denominator(e);
    var m, j := WordIsPoint(f, word);
    SameSides(f, max, d, c, e, v, v', m, j, 2 * Units(f, word));
    TwiceOnBothSides(n, Units(f, word));
    if word < InfinityWord(f) {
      m, j := WordIsPoint(f, word + 1);
      SameSides(f, max, d, c, e, v, v', m, j, 2 * Units(f, word + 1));
      TwiceOnBothSides(n, Units(f, word + 1));
    }
    Unfolded(f, v, e, word);
    Unfolded(f, v', e, word);
    SamePlaceHere(f, Numerator(f, v, e), Numerator(f, v', e), n, word);
  }

  lemma SamePlaceHere(f: Format, x: int, x': int, n: int, word: int)
    requires 0 <= word && DC.Brackets(f, x, n, word)
    requires 2 * x < 2 * (n * Units(f, word)) <==> 2 * x' < 2 * (n * Units(f, word))
    requires word < Infinity(f) ==> x != n * Units(f, word + 1) && x' != n * Units(f, word + 1)
    requires word < Infinity(f) ==> (2 * x < 2 * (n * Units(f, word + 1)) <==> 2 * x' < 2 * (n * Units(f, word + 1)))
    ensures DC.Brackets(f, x', n, word)
  {
    hide Units;
  }

  lemma TwiceOnBothSides(n: int, u: int)
    ensures n * (2 * u) == 2 * (n * u)
  {
    MulAssociates(n, 2, u);
    MulAssociates(2, n, u);
  }

  // ---------- what the kept digits stand for rounds like the literal

  lemma {:induction false} NonzeroDigits(s: Text)
    requires AllDigits(s) && !AllZeros(s)
    ensures 0 < DecVal(s)
  {
    var m := |s| - 1;
    DecValBound(s[..m]);
    if s[m] == ZERO {
      var i :| 0 <= i < |s| && s[i] != ZERO;
      assert s[..m][i] != ZERO;
      NonzeroDigits(s[..m]);
    }
  }

  /** Digits cut off by a prefix of length max. */
  lemma PrefixBrackets(t: Text, max: nat)
    requires AllDigits(t) && 0 < max < |t| && t[0] != ZERO
    ensures Pow(10, max - 1) <= DecVal(t[..max])
    ensures AllZeros(t[max..]) ==> DecVal(t) == DecVal(t[..max]) * Pow(10, |t| - max)
    ensures !AllZeros(t[max..]) ==> BeginsWith(DecVal(t), DecVal(t[..max]), |t| - max)
  {
    hide DecVal, AllZeros, Pow;
    var a, b := t[..max], t[max..];
    assert t == a + b;
    DecValConcat(a, b);
    AllDigitsConcat(a, b);
    DecValAtLeast(a);
    DecValBound(b);
    if AllZeros(b) {
      ZerosAreZero(b);
    } else {
      NonzeroDigits(b);
    }
  }

  lemma ZerosAreZero(s: Text)
    requires AllZeros(s)
    ensures DecVal(s) == 0
  {
    DecValOfZeros(s);
  }

  /** A one after the kept digits lies where the digits that were cut off do. */
  lemma MarkBegins(d: int, c: nat)
    requires 0 < c
    ensures BeginsWith((10 * d + 1) * Pow(10, c - 1), d, c)
  {
    PowPositive(10, c - 1);
    var p := Pow(10, c - 1);
    assert Pow(10, c) == 10 * p;
    hide Pow;
    MulAssociates(d, 10, p);
    MulDistributes(p, 10 * d, 1);
  }

  /** The built number, at the scale of its last digit, rounds as all the digits do, and lies where
      they do. */
  lemma StandInRounds(f: Format, max: nat, t: Text, e: int, w: int, digits: nat, word: int)
    requires ValidFormat(f) && 0 < max && EnoughDigits(f, max)
    requires AllDigits(t) && |t| > 0 && t[0] != ZERO && Stands(t, max, w, digits)
    requires 0 <= word <= InfinityWord(f)
    ensures digits <= |t|
    ensures RoundsTo(f, w, e + |t| - digits, word) ==> RoundsTo(f, DecVal(t), e, word)
    ensures LiesAt(f, DecVal(t), e, word) ==> LiesAt(f, w, e + |t| - digits, word)
  {
    hide DecVal, Pow, AllZeros, LiesAt, RoundsTo, EnoughDigits, AllDigits, BeginsWith, InfinityWord;
    if |t| > max {
      PrefixBrackets(t, max);
      ShiftsTogether(f, w, e, |t| - digits, word);
      if !AllZeros(t[max..]) {
        var d, c := DecVal(t[..max]), |t| - max;
        MarkBegins(d, c);
        if RoundsTo(f, w * Pow(10, c - 1), e, word) {
          SameNearest(f, max, d, c, e, w * Pow(10, c - 1), DecVal(t), word);
        }
        if LiesAt(f, DecVal(t), e, word) {
          SamePlace(f, max, d, c, e, DecVal(t), w * Pow(10, c - 1), word);
        }
      }
    }
  }

  /** It has as many digits as are counted. */
  lemma StandInBound(max: nat, t: Text, w: int, digits: nat)
    requires AllDigits(t) && |t| > 0 && t[0] != ZERO && Stands(t, max, w, digits) && 0 < max
    ensures 0 < digits <= max + 1 && Pow(10, digits - 1) <= w < Pow(10, digits)
  {
    hide DecVal, AllZeros;
    var u := if |t| <= max then t else t[..max];
    assert |t| > max ==> t[..max] + t[max..] == t;
    if |t| > max {
      AllDigitsConcat(u, t[max..]);
    }
    DecValBound(u);
    DecValAtLeast(u);
    PowNext(10, |u|);
    PowNext(10, |u| - 1);
  }

  // ---------- the scientific exponent

  lemma Narrowed(q: int, m: int, k: nat, j: nat, mantissa: int)
    requires q * Pow(10, k) <= m < (q + 1) * Pow(10, k)
    requires m * Pow(10, j) <= mantissa < (m + 1) * Pow(10, j)
    ensures q * Pow(10, j + k) <= mantissa < (q + 1) * Pow(10, j + k)
  {
    hide Pow;
    PowAdd(10, k, j);
    var a, b := Pow(10, k), Pow(10, j);
    PowPositive(10, j);
    MulAssociates(q, a, b);
    MulAssociates(q + 1, a, b);
    MulMonotonic(b, q * a, m);
    MulMonotonic(b, m + 1, (q + 1) * a);
  }

  lemma QuotientBrackets(m: int, k: nat)
    ensures 0 < Pow(10, k) && (m / Pow(10, k)) * Pow(10, k) <= m < (m / Pow(10, k) + 1) * Pow(10, k)
  {
    PowPositive(10, k);
    DivModSplit(m, Pow(10, k));
    MulDistributes(Pow(10, k), m / Pow(10, k), 1);
  }

  lemma SmallTens()
    ensures Pow(10, 1) == 10 && Pow(10, 2) == 100 && Pow(10, 4) == 10000 && Pow(10, 0) == 1
  {
  }

  /** The exponent of the number in scientific notation. */
  method ScientificExponent(mantissa: word, numExponent: int) returns (exponent: int)
    requires 0 < mantissa
    ensures numExponent <= exponent
    ensures Pow(10, exponent - numExponent) <= mantissa < Pow(10, exponent - numExponent + 1)
  {
    hide Pow;
    var m: int := mantissa;
    exponent := numExponent;
    SmallTens();
    while m >= 10000
      invariant 1 <= m && numExponent <= exponent
      invariant m * Pow(10, exponent - numExponent) <= mantissa < (m + 1) * Pow(10, exponent - numExponent)
    {
      QuotientBrackets(m, 4);
      Narrowed(m / 10000, m, 4, exponent - numExponent, mantissa);
      m := m / 10000;
      exponent := exponent + 4;
    }
    while m >= 100
      invariant 1 <= m && numExponent <= exponent
      invariant m * Pow(10, exponent - numExponent) <= mantissa < (m + 1) * Pow(10, exponent - numExponent)
    {
      QuotientBrackets(m, 2);
      Narrowed(m / 100, m, 2, exponent - numExponent, mantissa);
      m := m / 100;
      exponent := exponent + 2;
    }
    while m >= 10
      invariant 1 <= m && numExponent <= exponent
      invariant m * Pow(10, exponent - numExponent) <= mantissa < (m + 1) * Pow(10, exponent - numExponent)
    {
      QuotientBrackets(m, 1);
      Narrowed(m / 10, m, 1, exponent - numExponent, mantissa);
      m := m / 10;
      exponent := exponent + 1;
    }
    PowNext(10, exponent - numExponent);
    PowPositive(10, exponent - numExponent);
    MulMonotonic(Pow(10, exponent - numExponent), 1, m);
    MulMonotonic(Pow(10, exponent - numExponent), m + 1, 10);
  }

  /** A number between powers of ten has one length. */
  lemma LengthIsUnique(v: int, a: nat, b: nat)
    requires Pow(10, a) <= v < Pow(10, a + 1) && Pow(10, b) <= v < Pow(10, b + 1)
    ensures a == b
  {
    hide Pow;
    if a < b {
      PowMonotonic(10, a + 1, b);
    } else if b < a {
      PowMonotonic(10, b + 1, a);
    }
  }

  /** The mantissa's length and the dropped digits make up all significant digits. */
  lemma MantissaLength(s: Text, m: int, dropped: int, tooMany: bool, k: nat)
    requires AllDigits(s) && Keeps(s, m, dropped, tooMany) && 0 < m
    requires Pow(10, k) <= m < Pow(10, k + 1)
    ensures AllDigits(Significant(s)) && 0 < |Significant(s)| == dropped + k + 1 && Significant(s)[0] != ZERO
    ensures DecVal(Significant(s)) == DecVal(s)
  {
    hide DecVal, Pow, LeadingZeros, AllDigits;
    SignificantPart(s);
    var u := s[..|s| - dropped];
    var rest := s[|s| - dropped..];
    assert u + rest == s;
    AllDigitsConcat(u, rest);
    SignificantPart(u);
    assert |s| == |u| ==> u == s;
    var t := u[LeadingZeros(u)..];
    if |t| == 0 {
      DecValOfNone(t);
      assert false;
    }
    DecValAtLeast(t);
    DecValBound(t);
    LengthIsUnique(m, |t| - 1, k);
    assert s[LeadingZeros(u)] == t[0];
    assert forall i :: 0 <= i < LeadingZeros(u) ==> s[i] == u[i];
    LeadingZerosUnique(s, LeadingZeros(u));
  }

  // ---------- the numbers that are compared fit the buffers

  lemma {:induction false} ThousandsBelowTwos(k: nat)
    ensures Pow(10, 3 * k) <= Pow2(10 * k)
  {
    assert Pow(10, 3) == 1000;
    assert Pow2(5) == 32;
    PowAdd(2, 5, 5);
    PowOfPow(10, 3, k);
    PowOfPow(2, 10, k);
    PowBaseMonotonic(1000, 1024, k);
  }

  lemma BelowLimit(x: int, k: nat)
    requires x <= Pow2(k) && k < 64 * LIMBS
    ensures x < Limit()
  {
    hide Pow, Base;
    BaseAsPow2(LIMBS);
    PowStrictlyMonotonic(2, k, 64 * LIMBS);
  }

  lemma DigitsShiftedFit(w: int, digits: nat, i: nat)
    requires 0 <= w < Pow(10, digits) && digits <= 771 && i <= 1075
    ensures w * Pow2(i) < Limit()
  {
    hide Pow, Limit;
    PowMonotonic(10, digits, 771);
    ThousandsBelowTwos(257);
    PowAdd(2, 2570, i);
    PowPositive(2, i);
    MulMonotonic(Pow2(i), w, Pow2(2570));
    BelowLimit(w * Pow2(i), 2570 + i);
  }

  lemma FivesFitAlone(f: Format, m: int, n: nat)
    requires ValidFormat(f) && 0 <= m <= 4 * Hidden(f) && n <= 1113
    ensures m * Pow(5, n) < Limit()
  {
    hide Pow, Limit, Hidden;
    FourHidden(f);
    PowMonotonic(5, n, 1113);
    FivesBelowTwos(371);
    PowPositive(5, n);
    PowAdd(2, 2 + f.mantissaBits, 2597);
    PowPositive(2, 2 + f.mantissaBits);
    MulMonotonic(Pow(5, n), m, Pow2(2 + f.mantissaBits));
    MulMonotonic(Pow2(2 + f.mantissaBits), Pow(5, n), Pow2(2597));
    BelowLimit(m * Pow(5, n), 2 + f.mantissaBits + 2597);
  }

  /** The next magnitude is at most twice as large, and one. */
  lemma NextMagnitude(f: Format, word: int)
    requires ValidFormat(f) && 0 <= word
    ensures 0 <= Units(f, word) && Units(f, word + 1) <= 2 * Units(f, word) + 1
  {
    hide Units, Pow, Hidden;
    HiddenPositive(f);
    if word < Hidden(f) {
      UnitsOfDenormal(f, word);
      UnitsOfDenormal(f, word + 1);
    } else {
      var power, m := WordAsPair(f, word);
      UnitsOfPair(f, power, m);
      UnitsOfPair(f, power, m + 1);
      PowPositive(2, power - 1);
      MulMonotonic(Pow2(power - 1), m + 1, 2 * m);
      MulAssociates(2, m, Pow2(power - 1));
      MulMonotonic(Pow2(power - 1), 0, m);
    }
  }

  /** The midpoint above a word that lies below the digits, as a big integer. */
  lemma MidpointFits(f: Format, w: int, digits: nat, n: nat, m: int, d: nat, j: nat, word: int)
    requires ValidFormat(f) && 0 <= word && j + n == d + Bias(f) && n <= 1113 && digits <= 771
    requires m * Pow2(j) == Units(f, word) + Units(f, word + 1)
    requires 0 <= w < Pow(10, digits) && Pow(10, n) * Units(f, word) <= w * Pow2(Bias(f) - 1)
    ensures m * Pow(5, n) * Pow2(d) < Limit()
  {
    hide Pow, Limit, Units;
    var x, t, b := m * Pow(5, n) * Pow2(d), Pow(10, n), Pow2(Bias(f) - 1);
    var u := Units(f, word);
    NextMagnitude(f, word);
    DC.MidpointScales(m, n, d, Bias(f), j);
    PowNext(2, Bias(f) - 1);
    PowPositive(2, Bias(f) - 1);
    PowPositive(10, n);
    MulMonotonic(t, m * Pow2(j), 3 * u + 1);
    MulDistributes(t, 3 * u, 1);
    MulAssociates(t, 3, u);
    MulCommutes(t, 3);
    MulAssociates(3, t, u);
    assert x * (2 * b) <= 3 * (w * b) + t;
    BoundByParts(x, b, w, t);
    PowMonotonic(10, digits, 771);
    ThousandsBelowTwos(257);
    PowMonotonic(10, n, 1113);
    ThousandsBelowTwos(371);
    PowMonotonic(2, 2571, 3710);
    PowNext(2, 2570);
    PowNext(2, 3710);
    BelowLimit(x, 3711);
  }

  lemma BoundByParts(x: int, b: int, w: int, t: int)
    requires 0 < b && 0 <= w && 0 <= t && x * (2 * b) <= 3 * (w * b) + t
    ensures x <= 2 * w + t
  {
    if x > 2 * w + t {
      MulMonotonic(2 * b, 2 * w + t + 1, x);
      MulDistributes(b, 4 * w, 2 * t + 2);
      MulMonotonic(2 * t + 2, 1, b);
      MulMonotonic(w, 0, b);
      assert false;
    }
  }

  lemma EverythingFits(f: Format, w: int, digits: nat, n: nat, word: int)
    requires ValidFormat(f) && Bias(f) <= 1075 && 0 <= word
    requires 0 <= w < Pow(10, digits) && digits <= 771 && n <= 1113
    requires DC.Brackets(f, w * Pow2(Bias(f) - 1), Pow(10, n), word)
    ensures DC.ComparisonFits(f, w, n, word)
  {
    hide Pow, Limit, Units, DC.ToExtendedHalfway;
    var h := DC.ToExtendedHalfway(f, word);
    DC.HalfwayIsMidpoint(f, word);
    DigitsShiftedFit(w, digits, DC.Positive(-(h.power2 + n)));
    if h.power2 + n <= 0 {
      FivesFitAlone(f, h.mantissa, n);
      PowNone(2);
    } else {
      MidpointFits(f, w, digits, n, h.mantissa, h.power2 + n, h.power2 + Bias(f), word);
    }
  }

  // ---------- the slow path

  /** max_digits of the two formats. */
  function MaxDigits(f: Format): nat {
    if f == DOUBLE then 769 else 114
  }

  lemma StandardBias()
    ensures ValidFormat(DOUBLE) && ValidFormat(FLOAT) && Bias(DOUBLE) == 1075 && Bias(FLOAT) == 150
  {
  }

  /** The approximation, rounded down, is the float just below v * 10^e or v * 10^e itself. */
  ghost predicate LiesAbove(f: Format, v: int, e: int, am: AdjustedMantissa)
    requires ValidFormat(f) && DC.Extended(f, am)
  {
    var down := DC.RoundTowardZero(f, am);
    0 <= down.mantissa && 0 <= down.power2 && LiesAt(f, v, e, ToWord(f, down))
  }

  /** The kept digits of s * 10^e reach below the decimal point, so that the comparison with the
      midpoint decides; otherwise the number is whole and its top bits decide. */
  predicate HasFractionalDigits(s: Text, e: int, f: Format) {
    e + |Significant(s)| < KeptDigits(Significant(s), MaxDigits(f))
  }

  /** digit_comp: from the scan of a literal, and an approximation that lies just below it if the
      literal is not whole, the correctly rounded literal, whatever its number of digits. The literal
      is s * 10^e. */
  method DigitComp(num: Scan, am: AdjustedMantissa, f: Format, ghost e: int) returns (answer: AdjustedMantissa)
    requires (f == DOUBLE || f == FLOAT) && ValidFormat(f)
    requires num.Accepted? && AllDigits(num.integer) && AllDigits(num.fraction) && num.mantissa != 0
    requires Keeps(num.integer + num.fraction, num.mantissa, num.exponent - e, num.tooManyDigits)
    requires -342 <= num.exponent <= 308
    requires DC.Extended(f, am)
    requires HasFractionalDigits(num.integer + num.fraction, e, f) ==>
               LiesAbove(f, DecVal(num.integer + num.fraction), e, am)
    ensures 0 <= answer.mantissa && 0 <= answer.power2
    ensures RoundsTo(f, DecVal(num.integer + num.fraction), e, ToWord(f, answer))
  {
    hide Pow, DecVal, Limit, Value, Base, IsNearest, Units, LiesAt, RoundsTo, Stands, Keeps, EnoughDigits, AllDigits,
         LeadingZeros, Significant, ToWord, DC.RoundTowardZero, Infinity, InfinityWord, KeptDigits;
    DownIsWord(f, am);
    ghost var s, word := num.integer + num.fraction, ToWord(f, DC.RoundTowardZero(f, am));
    var max := MaxDigits(f);
    StandardDigits();
    StandardBias();
    var sciExp := ScientificExponent(num.mantissa, num.exponent);
    WordLength(num.mantissa, sciExp - num.exponent);
    AllDigitsConcat(num.integer, num.fraction);
    MantissaLength(s, num.mantissa, num.exponent - e, num.tooManyDigits, sciExp - num.exponent);
    var bigmant := new StackVec();
    ValueOfEmpty(bigmant.Limbs());
    var digits := ParseMantissa(bigmant, num.integer, num.fraction, max);
    ghost var t, w := Significant(s), bigmant.Val();
    StandInBound(max, t, w, digits);
    CountIsKept(t, max, w, digits);
    PowPositive(10, digits - 1);
    var exponent := sciExp + 1 - digits;
    StandInRounds(f, max, t, e, w, digits, word);
    if exponent >= 0 {
      answer := RoundPositive(bigmant, exponent, f, digits);
    } else {
      answer := RoundNegative(bigmant, am, exponent, f, digits);
    }
    RoundedIsWord(f, w, exponent, ToWord(f, answer));
    StandInRounds(f, max, t, e, w, digits, ToWord(f, answer));
  }

  lemma CountIsKept(t: Text, max: nat, w: int, digits: nat)
    requires Stands(t, max, w, digits)
    ensures digits == KeptDigits(t, max)
  {
    hide DecVal, AllZeros;
  }

  lemma WordLength(m: word, k: nat)
    requires Pow(10, k) <= m
    ensures k < 20
  {
    hide Pow;
    NineteenDigits();
    PowNext(10, 19);
    if 20 <= k {
      PowMonotonic(10, 20, k);
    }
  }

  lemma DownIsWord(f: Format, am: AdjustedMantissa)
    requires ValidFormat(f) && DC.Extended(f, am)
    ensures var down := DC.RoundTowardZero(f, am);
            0 <= down.mantissa && 0 <= down.power2 && 0 <= ToWord(f, down) <= InfinityWord(f)
  {
    hide ToWord, DC.RoundTowardZero, DC.RoundNearest, DC.Extended;
    DC.RoundedByOrder(f, am, 0);
  }

  lemma RoundedIsWord(f: Format, v: int, e: int, word: int)
    requires ValidFormat(f) && RoundsTo(f, v, e, word)
    ensures 0 <= word <= InfinityWord(f)
  {
    hide Units, Numerator, Denominator;
  }

  lemma Whole(f: Format, v: int, e: int)
    requires ValidFormat(f)
    ensures 0 <= e ==> Numerator(f, v, e) == v * Pow(10, e) * Pow2(Bias(f) - 1) && Denominator(e) == 1
    ensures e <= 0 ==> Numerator(f, v, e) == v * Pow2(Bias(f) - 1) && Denominator(e) == Pow(10, -e)
  {
    assert Pow(10, 0) == 1;
    FractionParts(f, v, e);
    hide Pow;
  }

  method RoundPositive(bigmant: StackVec, exponent: nat, f: Format, ghost digits: nat) returns (answer: AdjustedMantissa)
    requires ValidFormat(f) && bigmant.Valid() && Normalized(bigmant.Limbs())
    requires 0 < bigmant.Val() < Pow(10, digits) && digits + exponent <= MOST_DIGITS
    modifies bigmant, bigmant.data
    ensures 0 <= answer.mantissa && 0 <= answer.power2
    ensures RoundsTo(f, old(bigmant.Val()), exponent, ToWord(f, answer))
  {
    hide Pow, Limit, Value, Base, IsNearest, Units, ToWord, Hidden;
    PowAdd(10, digits, exponent);
    PowPositive(10, exponent);
    MulMonotonic(Pow(10, exponent), bigmant.Val(), Pow(10, digits));
    DigitsFit(digits + exponent);
    Whole(f, bigmant.Val(), exponent);
    answer := DC.PositiveDigitComp(bigmant, exponent, f);
  }

  method RoundNegative(bigmant: StackVec, am: AdjustedMantissa, exponent: int, f: Format, ghost digits: nat) returns (answer: AdjustedMantissa)
    requires ValidFormat(f) && Bias(f) <= 1075 && bigmant.Valid() && Normalized(bigmant.Limbs())
    requires 0 < bigmant.Val() < Pow(10, digits) && digits <= MOST_DIGITS + 1 && -1113 <= exponent < 0
    requires DC.Extended(f, am)
    requires var down := DC.RoundTowardZero(f, am);
             0 <= down.mantissa && 0 <= down.power2 && 0 <= ToWord(f, down)
             && LiesAt(f, bigmant.Val(), exponent, ToWord(f, down))
    modifies bigmant, bigmant.data
    ensures 0 <= answer.mantissa && 0 <= answer.power2
    ensures RoundsTo(f, old(bigmant.Val()), exponent, ToWord(f, answer))
  {
    hide Pow, Limit, Value, Base, IsNearest, Units, ToWord, Hidden, DC.RoundTowardZero, DC.ComparisonFits, DC.Brackets;
    DownIsWord(f, am);
    var n: nat := -exponent;
    Whole(f, bigmant.Val(), exponent);
    EverythingFits(f, bigmant.Val(), digits, n, ToWord(f, DC.RoundTowardZero(f, am)));
    answer := DC.NegativeDigitComp(bigmant, am, n, f);
  }

  // ---------- literals outside the range of the table

  lemma {:induction false} FivesExceedTwos(k: nat)
    ensures Pow2(65 * k) <= Pow(5, 28 * k)
  {
    TwentyEight();
    PowOfPow(5, 28, k);
    PowOfPow(2, 65, k);
    PowBaseMonotonic(Pow2(65), Pow(5, 28), k);
  }

  lemma TwentyEight()
    ensures Pow2(65) <= Pow(5, 28)
  {
    assert Pow(5, 7) == 78125;
    PowAdd(5, 7, 7);
    PowAdd(5, 14, 14);
    TwoToThe64();
    PowNext(2, 64);
  }

  /** A power of two below a power of ten. */
  lemma TensExceedTwos(n: nat, k: nat, j: nat, i: nat, t: nat)
    requires n == 28 * k + j && Pow2(i) <= Pow(5, j) && t <= n + 65 * k + i
    ensures Pow2(t) <= Pow(10, n)
  {
    hide Pow;
    FivesExceedTwos(k);
    PowOfProduct(5, 2, n);
    PowAdd(5, 28 * k, j);
    PowAdd(2, 65 * k, i);
    PowAdd(2, 65 * k + i, n);
    PowPositive(2, 65 * k);
    MulMonotonic(Pow2(65 * k), Pow2(i), Pow(5, j));
    MulMonotonic(Pow(5, j), Pow2(65 * k), Pow(5, 28 * k));
    MulMonotonic(Pow2(n), Pow2(65 * k + i), Pow(5, n));
    PowMonotonic(2, t, n + 65 * k + i);
  }

  function SmallestPower(f: Format): int {
    if f == DOUBLE then -342 else -65
  }

  function LargestPower(f: Format): int {
    if f == DOUBLE then 308 else 38
  }

  /** Below the range half the smallest denormal is not reached, above it the largest float is passed. */
  lemma RangeIsWide()
    ensures Pow2(1075) <= Pow(10, 324) && Pow2(150) <= Pow(10, 47)
    ensures Pow2(1024) <= Pow(10, 309) && Pow2(128) <= Pow(10, 39)
  {
    hide Pow;
    SmallPowers();
    TensExceedTwos(324, 11, 16, 37, 1075);
    TensExceedTwos(47, 1, 19, 43, 150);
    TensExceedTwos(309, 11, 1, 2, 1024);
    TensExceedTwos(39, 1, 11, 25, 128);
  }

  lemma SmallPowers()
    ensures Pow2(37) <= Pow(5, 16) && Pow2(43) <= Pow(5, 19) && Pow2(2) <= Pow(5, 1) && Pow2(25) <= Pow(5, 11)
  {
    assert Pow(5, 8) == 390625;
    PowAdd(5, 8, 8);
    PowAdd(5, 8, 3);
    PowAdd(5, 16, 3);
    assert Pow(5, 3) == 125;
    assert Pow2(8) == 256;
    PowAdd(2, 8, 8);
    PowAdd(2, 16, 16);
    PowAdd(2, 32, 5);
    PowAdd(2, 37, 6);
    PowAdd(2, 16, 9);
    PowAdd(2, 8, 1);
    assert Pow2(5) == 32 && Pow2(6) == 64 && Pow2(1) == 2 && Pow2(2) == 4 && Pow(5, 1) == 5;
  }

  /** Less than half the smallest denormal rounds to zero. */
  lemma RoundsToZero(f: Format, v: int, e: int)
    requires ValidFormat(f) && 2 * Numerator(f, v, e) < Denominator(e)
    ensures RoundsTo(f, v, e, 0)
  {
    hide Units, Pow, Numerator, Denominator, InfinityWord;
    DoubledNumerator(f, v, e);
    HiddenPositive(f);
    UnitsOfDenormal(f, 0);
    UnitsOfDenormal(f, 1);
    InsideMidpoints(f, Numerator(f, v, e), Denominator(e), 0);
  }

  lemma TinyIsZero(f: Format, v: int, dropped: nat, e: int, q: nat)
    requires ValidFormat(f) && Pow2(Bias(f)) <= Pow(10, q) && 19 + dropped + q <= -e
    requires v < Pow(10, 19 + dropped)
    ensures RoundsTo(f, v, e, 0)
  {
    hide Pow, Numerator, Denominator, RoundsTo;
    DoubledNumerator(f, v, e);
    PowNone(2);
    PowNone(10);
    PowPositive(2, Bias(f));
    MulOrder(Pow2(Bias(f)), v, Pow(10, 19 + dropped));
    PowPositive(10, 19 + dropped);
    MulMonotonic(Pow(10, 19 + dropped), Pow2(Bias(f)), Pow(10, q));
    PowAdd(10, 19 + dropped, q);
    PowMonotonic(10, 19 + dropped + q, -e);
    RoundsToZero(f, v, e);
  }

  lemma HugeIsInfinity(f: Format, v: int, dropped: nat, e: int, q: nat)
    requires ValidFormat(f) && q <= dropped + e && Pow(10, dropped) <= v
    requires Pow2(f.mantissaBits + f.infinitePower) <= Pow(10, q) * Pow2(Bias(f))
    ensures RoundsTo(f, v, e, InfinityWord(f))
  {
    hide Pow, Numerator, Denominator, Units;
    var up, down := DC.Positive(e), DC.Positive(-e);
    DoubledNumerator(f, v, e);
    UnitsOfInfinity(f);
    PowPositive(10, up);
    PowPositive(10, down);
    PowPositive(2, Bias(f));
    PowAdd(10, dropped, up);
    PowAdd(10, down, q);
    PowMonotonic(10, down + q, dropped + up);
    InfinityReached(Pow(10, down), Pow(10, q), Pow2(Bias(f)), Units(f, InfinityWord(f)), v, Pow(10, up), Pow(10, dropped));
    NearestIsInfinity(f, Numerator(f, v, e), Denominator(e));
  }

  lemma InfinityReached(d: int, t: int, b: int, u: int, v: int, up: int, p: int)
    requires 0 < d && 0 < b && 0 < up && 2 * u <= t * b && p <= v && d * t <= p * up
    ensures 2 * (d * u) <= v * up * b
  {
    MulMonotonic(d, 2 * u, t * b);
    MulAssociates(d, t, b);
    MulMonotonic(b, d * t, p * up);
    MulMonotonic(up, p, v);
    MulMonotonic(b, p * up, v * up);
    TwiceOnBothSides(d, u);
  }

  /** The words that are given to such literals. */
  lemma ExtremeWords(f: Format)
    requires ValidFormat(f)
    ensures ToWord(f, AdjustedMantissa(0, 0)) == 0 && ToWord(f, AdjustedMantissa(0, f.infinitePower)) == InfinityWord(f)
  {
  }

  /** A literal whose exponent is outside the range of the table, or which is zero. */
  lemma OutsideRange(f: Format, s: Text, m: int, dropped: int, tooMany: bool, e: int)
    requires (f == DOUBLE || f == FLOAT) && ValidFormat(f)
    requires AllDigits(s) && Keeps(s, m, dropped, tooMany)
    ensures m == 0 || e + dropped < SmallestPower(f) ==> RoundsTo(f, DecVal(s), e, 0)
    ensures m > 0 && e + dropped > LargestPower(f) ==> RoundsTo(f, DecVal(s), e, InfinityWord(f))
  {
    hide Pow, DecVal, RoundsTo, AllDigits, SignificantDigits, Numerator, Denominator, InfinityWord;
    StandardBias();
    RangeIsWide();
    CutBrackets(s, dropped);
    assert s[..|s|] == s;
    PowPositive(10, dropped);
    if m == 0 {
      DoubledNumerator(f, 0, e);
      NumeratorOfZero(f, e);
      RoundsToZero(f, 0, e);
    } else if e + dropped < SmallestPower(f) {
      BelowNineteen(s, m, dropped, tooMany);
      TinyIsZero(f, DecVal(s), dropped, e, if f == DOUBLE then 324 else 47);
    } else if e + dropped > LargestPower(f) && m > 0 {
      MulMonotonic(Pow(10, dropped), 1, m);
      if f == DOUBLE {
        PowAdd(2, 1024, 1075);
        MulMonotonic(Pow2(1075), Pow2(1024), Pow(10, 309));
        HugeIsInfinity(f, DecVal(s), dropped, e, 309);
      } else {
        PowAdd(2, 128, 150);
        MulMonotonic(Pow2(150), Pow2(128), Pow(10, 39));
        HugeIsInfinity(f, DecVal(s), dropped, e, 39);
      }
    }
  }

  lemma NumeratorOfZero(f: Format, e: int)
    requires ValidFormat(f)
    ensures Numerator(f, 0, e) == 0
  {
    FractionParts(f, 0, e);
  }

  lemma BelowNineteen(s: Text, m: int, dropped: int, tooMany: bool)
    requires AllDigits(s) && Keeps(s, m, dropped, tooMany)
    ensures DecVal(s) < Pow(10, 19 + dropped)
  {
    hide Pow, DecVal, AllDigits;
    NineteenDigits();
    PowAdd(10, 19, dropped);
    PowPositive(10, dropped);
    if tooMany {
      CutBrackets(s, dropped);
      MulMonotonic(Pow(10, dropped), m + 1, Pow(10, 19));
    } else {
      FewDigits(s);
      PowNone(10);
    }
  }
}
