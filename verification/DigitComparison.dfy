/** The slow path of the decimal parser: big integers decide the rounding exactly. */
module DigitComparison {
  import opened Powers
  import opened Bits
  import opened BigInt
  import opened BigIntOps
  import opened Rounding

  function RoundNearest(f: Format, am: AdjustedMantissa, up: (bool, bool, bool) -> bool): AdjustedMantissa
    requires ValidFormat(f) && 0 <= am.mantissa < TWO64
  {
    Finish(f, am, RoundNearestTieEven(am, RoundingShift(f, am), up))
  }

  function RoundTowardZero(f: Format, am: AdjustedMantissa): AdjustedMantissa
    requires ValidFormat(f) && 0 <= am.mantissa < TWO64
  {
    PowPositive(2, RoundingShift(f, am));
    ShrNonNegative(am.mantissa, RoundingShift(f, am));
    Finish(f, am, RoundDown(am, RoundingShift(f, am)))
  }

  lemma ShrNonNegative(x: nat, k: nat)
    ensures 0 <= Shr(x, k)
  {
  }

  // ---------- shifted mantissas

  /** Shifting a word right by a normal rounding shift, and the bits that are cut off. */
  lemma NormalShift(f: Format, hi: int)
    requires ValidFormat(f) && TWO64 / 2 <= hi < TWO64
    ensures var s := 63 - f.mantissaBits;
            var t := Pow2(s);
            && 0 < t && t == 2 * Pow2(s - 1)
            && var m := Shr(hi, s);
               var cut := And(hi, t - 1);
            && hi == m * t + cut && 0 <= cut < t
            && Hidden(f) <= m < 2 * Hidden(f)
  {
    hide And;
    var s := 63 - f.mantissaBits;
    var t, p := Pow2(s), Hidden(f);
    PowPositive(2, s - 1);
    AndLowMask(hi, s);
    DivModSplit(hi, t);
    HiddenInRange(f);
    PowAdd(2, f.mantissaBits, s);
    PowAdd(2, 63, 1);
    TwoToThe64();
    assert p * t == TWO64 / 2;
    var m := hi / t;
    if m < p {
      MulMonotonic(t, m + 1, p);
      MulDistributes(t, m, 1);
      assert false;
    }
    if m >= 2 * p {
      MulMonotonic(t, 2 * p, m);
      MulAssociates(2, p, t);
      assert false;
    }
  }

  /** Where the bits cut off from the top of a number lie relative to half of the last place. */
  lemma CutDecides(cut: int, half: int, n: int, rest: int)
    requires 0 <= cut < 2 * half && 0 <= rest < n
    ensures var r := cut * n + rest;
            && 0 <= r < 2 * half * n
            && (2 * r > 2 * half * n <==> cut > half || (cut == half && rest != 0))
            && (2 * r == 2 * half * n <==> cut == half && rest == 0)
  {
    MulMonotonic(n, 0, cut);
    MulMonotonic(n, cut, 2 * half - 1);
    MulDistributes(n, 2 * half, -1);
    MulAssociates(2, half, n);
    if cut < half {
      MulMonotonic(n, cut, half - 1);
      MulDistributes(n, half, -1);
    } else if cut > half {
      MulMonotonic(n, half + 1, cut);
      MulDistributes(n, half, 1);
    }
  }

  // ---------- nonnegative exponents

  /** The word reached by rounding, seen from the scaled number x = m * u + r with 0 <= r < u. */
  lemma ScaledNearest(f: Format, x: int, k: int, power: int, m: int, u: int, r: int, up: bool)
    requires ValidFormat(f) && 0 < k && 1 <= power && Hidden(f) <= m < 2 * Hidden(f)
    requires u == k * Pow2(power - 1) && k * x == m * u + r && 0 <= r < u
    requires up == (2 * r > u || (2 * r == u && m % 2 == 1))
    ensures var word := (power - 1) * Hidden(f) + m + if up then 1 else 0;
            IsNearest(f, x, 1, if word < Infinity(f) then word else Infinity(f))
  {
    hide *;
    ScaledUnits(f, k, power, m, u);
    HiddenInRange(f);
    InfinityIsPositive(f);
    var word := (power - 1) * Hidden(f) + m;
    var c := if word >= Infinity(f) then Infinity(f) else if up then word + 1 else word;
    if word < Infinity(f) {
      NearestNeighbour(f, k * x, k, word, up);
    } else {
      UnitsMonotonic(f, Infinity(f), word);
      MulMonotonic(k, Units(f, Infinity(f)), Units(f, word));
      NearestIsInfinity(f, k * x, k);
    }
    assert k * 1 == k;
    NearestUnscaled(f, k, x, 1, c);
  }

  lemma InfinityIsPositive(f: Format)
    requires ValidFormat(f)
    ensures 2 * Hidden(f) <= Infinity(f) && 0 < Hidden(f)
  {
    HiddenInRange(f);
    MulMonotonic(Hidden(f), 2, f.infinitePower);
  }

  lemma ScaledUnits(f: Format, k: int, power: int, m: int, u: int)
    requires ValidFormat(f) && 1 <= power && Hidden(f) <= m < 2 * Hidden(f) && u == k * Pow2(power - 1)
    ensures var word := (power - 1) * Hidden(f) + m;
            && 0 <= word && word % 2 == m % 2
            && k * Units(f, word) == m * u && k * Units(f, word + 1) == m * u + u
  {
    hide Units, Pow;
    UnitsOfPair(f, power, m);
    UnitsOfPair(f, power, m + 1);
    HiddenInRange(f);
    ParityOfWord(power - 1, Hidden(f), m);
    Rearranged(k, m, Pow2(power - 1));
    Rearranged(k, m + 1, Pow2(power - 1));
    MulDistributes(u, m, 1);
  }

  lemma Rearranged(k: int, m: int, b: int)
    ensures k * (m * b) == m * (k * b)
  {
  }

  lemma ParityOfWord(power: int, p: int, m: int)
    requires p % 2 == 0
    ensures (power * p + m) % 2 == m % 2
  {
    MulAssociates(power, p / 2, 2);
    ModOfMultiple(m, power * (p / 2), 2);
    assert power * p == power * (p / 2) * 2;
  }

  /** The unit in the last place of the rounded number, scaled by 2^64. */
  lemma UnitInLastPlace(f: Format, length: nat)
    requires ValidFormat(f) && 1 <= length
    ensures var power := length + Bias(f) - 1 - f.mantissaBits;
            && 1 <= power
            && TWO64 * Pow2(power - 1) == Pow2(63 - f.mantissaBits) * Pow2(length) * Pow2(Bias(f) - 1)
  {
    var power := length + Bias(f) - 1 - f.mantissaBits;
    TwoToThe64();
    PowAdd(2, 64, power - 1);
    PowAdd(2, 63 - f.mantissaBits, length);
    PowAdd(2, 63 - f.mantissaBits + length, Bias(f) - 1);
  }

  /** From the top 64 bits of v and the flag for the rest, round returns the word nearest to v. */
  lemma TopRoundsToNearest(f: Format, v: int, length: nat, hi: int, rest: int)
    requires ValidFormat(f) && 1 <= length && IsTop(v, length, hi, rest)
    ensures var am := AdjustedMantissa(hi, length - 64 + Bias(f));
            var a := RoundNearest(f, am, PositiveCallback(rest != 0));
            && 0 <= a.mantissa < Hidden(f) && 0 <= a.power2 <= f.infinitePower
            && IsNearest(f, v * Pow2(Bias(f) - 1), 1, ToWord(f, a))
  {
    hide And, Or, Shr, Units, IsNearest;
    var s := 63 - f.mantissaBits;
    var t, n, g := Pow2(s), Pow2(length), Pow2(Bias(f) - 1);
    NormalShift(f, hi);
    UnitInLastPlace(f, length);
    var m, cut, power := Shr(hi, s), And(hi, t - 1), length + Bias(f) - 1 - f.mantissaBits;
    CutDecides(cut, Pow2(s - 1), n, rest);
    PowPositive(2, Bias(f) - 1);
    var r, u := (cut * n + rest) * g, t * n * g;
    RestScales(cut * n + rest, t * n, g);
    assert TWO64 * (v * g) == m * u + r by {
      ScaledSplit(v, hi, n, rest, m, t, cut, g);
    }
    var am := AdjustedMantissa(hi, length - 64 + Bias(f));
    assert RoundingShift(f, am) == s;
    var up := PositiveCallback(rest != 0)(m % 2 == 1, cut == Pow2(s - 1), cut > Pow2(s - 1));
    ScaledNearest(f, v * g, TWO64, power, m, u, r, up);
    FinishNormal(f, am, m + if up then 1 else 0, power);
  }

  /** The callback of positive_digit_comp. */
  function PositiveCallback(truncated: bool): (bool, bool, bool) -> bool {
    (isOdd, isHalfway, isAbove) => isAbove || (isHalfway && truncated) || (isOdd && isHalfway)
  }

  lemma RestScales(r: int, w: int, g: int)
    requires 0 < g && 0 <= r < w
    ensures 0 <= r * g < w * g
    ensures 2 * (r * g) > w * g <==> 2 * r > w
    ensures 2 * (r * g) == w * g <==> 2 * r == w
  {
    MulOrder(g, 0, r);
    MulOrder(g, r, w);
    MulAssociates(2, r, g);
    MulOrder(g, w, 2 * r);
    MulOrder(g, 2 * r, w);
  }

  lemma ScaledSplit(v: int, hi: int, n: int, rest: int, m: int, t: int, cut: int, g: int)
    requires v * TWO64 == hi * n + rest && hi == m * t + cut
    ensures TWO64 * (v * g) == m * (t * n * g) + (cut * n + rest) * g
  {
    calc {
      TWO64 * (v * g);
    == { MulAssociates(TWO64, v, g); }
      (hi * n + rest) * g;
    == { MulDistributes(n, m * t, cut); MulAssociates(m, t, n); }
      (m * (t * n) + (cut * n + rest)) * g;
    == { MulDistributes(g, m * (t * n), cut * n + rest); MulAssociates(m, t * n, g); }
      m * (t * n * g) + (cut * n + rest) * g;
    }
  }

  lemma {:induction false} LengthIsPositive(s: seq<limb>)
    requires Normalized(s) && 0 < |s|
    ensures 1 <= BitLength(s)
  {
    LeadingZeroesShift(s[|s| - 1]);
  }

  /** The digits times 10^exponent, rounded correctly; the buffer must hold the product. */
  method PositiveDigitComp(bigmant: StackVec, exponent: nat, f: Format) returns (answer: AdjustedMantissa)
    requires ValidFormat(f)
    requires bigmant.Valid() && Normalized(bigmant.Limbs()) && bigmant.Val() != 0
    requires bigmant.Val() * Pow(10, exponent) < Limit()
    modifies bigmant, bigmant.data
    ensures 0 <= answer.mantissa < Hidden(f) && 0 <= answer.power2 <= f.infinitePower
    ensures IsNearest(f, old(bigmant.Val()) * Pow(10, exponent) * Pow2(Bias(f) - 1), 1, ToWord(f, answer))
  {
    hide Limit, Base, Pow, Units, IsNearest, And, Or;
    ghost var v := bigmant.Val() * Pow(10, exponent);
    ValueBound(bigmant.Limbs());
    TenSplits(bigmant.Val(), exponent);
    PowPositive(5, exponent);
    var fits := MulPow10(bigmant, exponent);
    assert bigmant.length != 0;
    LengthIsPositive(bigmant.Limbs());
    var hi, truncated := Hi64(bigmant);
    var length := BitLength(bigmant.data[..bigmant.length]);
    TopRoundsToNearest(f, v, length, hi, v * TWO64 - hi * Pow2(length));
    answer := RoundNearest(f, AdjustedMantissa(hi, length - 64 + Bias(f)), PositiveCallback(truncated));
  }

  // ---------- negative exponents

  /** Mantissa and exponent of a word; the smallest denormal is 2^(1 - bias). */
  function ToExtended(f: Format, word: int): AdjustedMantissa
    requires ValidFormat(f) && 0 <= word
  {
    PowPositive(2, f.mantissaBits);
    var q, m := word / Hidden(f), word % Hidden(f);
    if q == 0 then AdjustedMantissa(m, 1 - Bias(f)) else AdjustedMantissa(m + Hidden(f), q - Bias(f))
  }

  function ToExtendedHalfway(f: Format, word: int): AdjustedMantissa
    requires ValidFormat(f) && 0 <= word
  {
    var am := ToExtended(f, word);
    AdjustedMantissa(2 * am.mantissa + 1, am.power2 - 1)
  }

  /** It is the midpoint between a word and the next, doubled to be a whole number of units. */
  lemma HalfwayIsMidpoint(f: Format, word: int)
    requires ValidFormat(f) && 0 <= word
    ensures var h := ToExtendedHalfway(f, word);
            && 0 < h.mantissa <= 4 * Hidden(f) && 0 <= h.power2 + Bias(f)
            && h.mantissa * Pow2(h.power2 + Bias(f)) == Units(f, word) + Units(f, word + 1)
  {
    hide Units, Pow;
    HiddenInRange(f);
    if word < Hidden(f) {
      UnitsOfDenormal(f, word);
      UnitsOfDenormal(f, word + 1);
      DivModUnique(word, Hidden(f), 0, word);
      PowNone(2);
    } else {
      var power, m := WordAsPair(f, word);
      UnitsOfPair(f, power, m);
      UnitsOfPair(f, power, m + 1);
      ExtendedOfPair(f, power, m);
      MulDistributes(Pow2(power - 1), m, m + 1);
    }
  }

  lemma ExtendedOfPair(f: Format, power: int, m: int)
    requires ValidFormat(f) && 1 <= power && Hidden(f) <= m < 2 * Hidden(f)
    ensures var word := (power - 1) * Hidden(f) + m;
            0 <= word && ToExtendedHalfway(f, word) == AdjustedMantissa(2 * m + 1, power - Bias(f) - 1)
  {
    var p := Hidden(f);
    MulMonotonic(p, 0, power - 1);
    MulDistributes(p, power, -1);
    DivModUnique((power - 1) * p + m, p, power, m - p);
  }

  function Positive(x: int): nat {
    if x < 0 then 0 else x
  }

  function Sign(x: int): int {
    if x > 0 then 1 else if x < 0 then -1 else 0
  }

  /** Scaling both numbers by powers of 5 and 2 until they are whole keeps the sign of the difference
      between the decimal number v / 10^n and the midpoint m * 2^e. */
  lemma HalfwayComparison(v: int, n: nat, m: int, e: int, bias: nat)
    requires 1 <= bias && 0 <= e + bias
    ensures var d := e + n;
            Sign(v * Pow2(Positive(-d)) - m * Pow(5, n) * Pow2(Positive(d)))
            == Sign(2 * (v * Pow2(bias - 1)) - Pow(10, n) * (m * Pow2(e + bias)))
  {
    hide Pow;
    var d := e + n;
    var k := if d < 0 then bias + d else bias;
    PowPositive(2, k);
    DigitsScale(v, Positive(-d), k, bias);
    MidpointScales(m, n, Positive(d), k, e + bias);
    SignScales(Pow2(k), v * Pow2(Positive(-d)), m * Pow(5, n) * Pow2(Positive(d)));
  }

  lemma SignScales(k: int, a: int, b: int)
    requires 0 < k
    ensures Sign(a - b) == Sign(a * k - b * k)
  {
    MulOrder(k, a, b);
    MulOrder(k, b, a);
  }

  lemma DigitsScale(v: int, i: nat, k: nat, bias: nat)
    requires i + k == bias && 1 <= bias
    ensures v * Pow2(i) * Pow2(k) == 2 * (v * Pow2(bias - 1))
  {
    PowAdd(2, i, k);
    MulAssociates(v, Pow2(i), Pow2(k));
    assert Pow2(bias) == 2 * Pow2(bias - 1);
    hide Pow;
    assert v * (2 * Pow2(bias - 1)) == 2 * (v * Pow2(bias - 1));
  }

  lemma MidpointScales(m: int, n: nat, i: nat, k: nat, j: nat)
    requires i + k == n + j
    ensures m * Pow(5, n) * Pow2(i) * Pow2(k) == Pow(10, n) * (m * Pow2(j))
  {
    hide Pow;
    PowAdd(2, i, k);
    PowAdd(2, n, j);
    PowOfProduct(5, 2, n);
    var a, b, c := Pow(5, n), Pow2(n), Pow2(j);
    calc {
      m * a * Pow2(i) * Pow2(k);
    == { MulAssociates(m * a, Pow2(i), Pow2(k)); }
      m * a * (b * c);
    == { MulAssociates(m, a, b * c); MulAssociates(a, b, c); }
      m * (a * b * c);
    == { MulAssociates(m, a * b, c); assert m * (a * b) == a * b * m; MulAssociates(a * b, m, c); }
      a * b * (m * c);
    }
  }

  /** The callback of negative_digit_comp ignores what round saw of the cut bits. */
  function NegativeCallback(ord: int): (bool, bool, bool) -> bool {
    (isOdd, _, _) => ord > 0 || (ord == 0 && isOdd)
  }

  /** An extended number as the approximation leaves it: its top bit is set unless it is a denormal. */
  predicate Extended(f: Format, am: AdjustedMantissa) {
    && 0 <= am.mantissa < TWO64
    && (-am.power2 < 63 - f.mantissaBits ==> TWO64 / 2 <= am.mantissa)
  }

  lemma DenormalShift(f: Format, hi: int, shift: nat)
    requires ValidFormat(f) && 0 <= hi < TWO64 && 64 - f.mantissaBits <= shift <= 64
    ensures 0 <= (if shift == 64 then 0 else Shr(hi, shift)) < Hidden(f)
  {
    var t, p := Pow2(shift), Hidden(f);
    PowPositive(2, shift);
    HiddenInRange(f);
    PowMonotonic(2, 64 - f.mantissaBits, shift);
    PowAdd(2, f.mantissaBits, 64 - f.mantissaBits);
    TwoToThe64();
    MulMonotonic(p, Pow2(64 - f.mantissaBits), t);
    DivModSplit(hi, t);
    if hi / t >= p {
      MulMonotonic(t, p, hi / t);
      assert false;
    }
  }

  /** Rounding by a comparison moves the rounded-down word up by one, or leaves it. */
  lemma RoundedByOrder(f: Format, am: AdjustedMantissa, ord: int)
    requires ValidFormat(f) && Extended(f, am)
    ensures var down, near := RoundTowardZero(f, am), RoundNearest(f, am, NegativeCallback(ord));
            && 0 <= down.mantissa && 0 <= down.power2 && 0 <= near.mantissa && 0 <= near.power2
            && var b := ToWord(f, down);
            && 0 <= b <= Infinity(f)
            && ToWord(f, near) == if b < Infinity(f) && (ord > 0 || (ord == 0 && b % 2 == 1)) then b + 1 else b
  {
    hide And, Or, Shr, ToWord;
    var p, shift := Hidden(f), RoundingShift(f, am);
    var m := if shift == 64 then 0 else Shr(am.mantissa, shift);
    var up := NegativeCallback(ord)(m % 2 == 1, false, false);
    var m' := m + if up then 1 else 0;
    HiddenInRange(f);
    MulMonotonic(p, 0, f.infinitePower);
    if -am.power2 >= 63 - f.mantissaBits {
      DenormalShift(f, am.mantissa, shift);
      FinishDenormal(f, am, m, am.power2 + shift);
      FinishDenormal(f, am, m', am.power2 + shift);
    } else {
      NormalShift(f, am.mantissa);
      var power := am.power2 + shift;
      FinishNormal(f, am, m, power);
      FinishNormal(f, am, m', power);
      ParityOfWord(power - 1, p, m);
      ParityOfWord(f.infinitePower, p, 0);
      MulMonotonic(p, 0, power - 1);
    }
  }

  /** The word below, found by approximation, is right: the number lies between it and the next. */
  ghost predicate Brackets(f: Format, x: int, d: int, word: int)
    requires 0 <= word
  {
    d * Units(f, word) <= x && (word < Infinity(f) ==> x <= d * Units(f, word + 1))
  }

  /** Both scaled numbers fit the buffers they are built in. */
  predicate ComparisonFits(f: Format, v: int, n: nat, word: int)
    requires ValidFormat(f) && 0 <= word
  {
    var h := ToExtendedHalfway(f, word);
    && v * Pow2(Positive(-(h.power2 + n))) < Limit()
    && h.mantissa * Pow(5, n) * Pow2(Positive(h.power2 + n)) < Limit()
  }

  lemma OrderDecides(f: Format, v: int, n: nat, word: int, ord: int)
    requires ValidFormat(f) && 0 <= word <= Infinity(f)
    requires var h := ToExtendedHalfway(f, word);
             && 0 <= h.power2 + Bias(f)
             && ord == Sign(2 * (v * Pow2(Bias(f) - 1)) - Pow(10, n) * (h.mantissa * Pow2(h.power2 + Bias(f))))
    requires Brackets(f, v * Pow2(Bias(f) - 1), Pow(10, n), word)
    ensures IsNearest(f, v * Pow2(Bias(f) - 1), Pow(10, n),
                      if word < Infinity(f) && (ord > 0 || (ord == 0 && word % 2 == 1)) then word + 1 else word)
  {
    hide Pow, Units, IsNearest;
    PowPositive(10, n);
    HalfwayIsMidpoint(f, word);
    MulDistributes(Pow(10, n), Units(f, word), Units(f, word + 1));
    if word < Infinity(f) {
      NearestNeighbour(f, v * Pow2(Bias(f) - 1), Pow(10, n), word, ord > 0 || (ord == 0 && word % 2 == 1));
    } else {
      NearestIsInfinity(f, v * Pow2(Bias(f) - 1), Pow(10, n));
    }
  }

  /** The digits divided by 10^n, rounded correctly from any approximation that brackets them. */
  method NegativeDigitComp(bigmant: StackVec, am: AdjustedMantissa, n: nat, f: Format) returns (answer: AdjustedMantissa)
    requires ValidFormat(f) && Extended(f, am)
    requires bigmant.Valid() && Normalized(bigmant.Limbs()) && bigmant.Val() != 0
    requires var down := RoundTowardZero(f, am);
             0 <= down.mantissa && 0 <= down.power2 && ComparisonFits(f, bigmant.Val(), n, ToWord(f, down))
    modifies bigmant, bigmant.data
    ensures 0 <= answer.mantissa && 0 <= answer.power2
    ensures var x, d := old(bigmant.Val()) * Pow2(Bias(f) - 1), Pow(10, n);
            Brackets(f, x, d, ToWord(f, RoundTowardZero(f, am))) ==> IsNearest(f, x, d, ToWord(f, answer))
  {
    hide Limit, Base, Value, Pow, Units, IsNearest, And, Or, Shr, ToExtended;
    ghost var v := bigmant.Val();
    RoundedByOrder(f, am, 0);
    var b := ToWord(f, RoundTowardZero(f, am));
    var theor := ToExtendedHalfway(f, b);
    HalfwayIsMidpoint(f, b);
    HiddenInRange(f);
    var theorDigits := HalfwayDigits(theor.mantissa, n, theor.power2 + n);
    var pow2Exp := theor.power2 + n;
    if pow2Exp < 0 {
      ValueBound(bigmant.Limbs());
      var shifted := ShiftLeft(bigmant, -pow2Exp);
    } else {
      PowNone(2);
    }
    assert bigmant.Val() == v * Pow2(Positive(-pow2Exp));
    var ord := Compare(bigmant, theorDigits);
    HalfwayComparison(v, n, theor.mantissa, theor.power2, Bias(f));
    RoundedByOrder(f, am, ord);
    answer := RoundNearest(f, am, NegativeCallback(ord));
    if Brackets(f, v * Pow2(Bias(f) - 1), Pow(10, n), b) {
      OrderDecides(f, v, n, b, ord);
    }
  }

  /** The midpoint as a big integer: m * 5^n, shifted when the power of two is positive. */
  method HalfwayDigits(m: limb, n: nat, pow2Exp: int) returns (digits: StackVec)
    requires 0 < m && m * Pow(5, n) * Pow2(Positive(pow2Exp)) < Limit()
    ensures fresh(digits) && fresh(digits.data) && digits.Valid() && Normalized(digits.Limbs())
    ensures digits.Val() == m * Pow(5, n) * Pow2(Positive(pow2Exp))
  {
    hide Limit, Base, Value, Pow;
    PowPositive(5, n);
    PowPositive(2, Positive(pow2Exp));
    MulMonotonic(m, 1, Pow(5, n));
    MulMonotonic(m * Pow(5, n), 1, Pow2(Positive(pow2Exp)));
    digits := new StackVec();
    var pushed := digits.TryPush(m);
    SingleLimb(m);
    var ok := MulPow5(digits, n);
    PowNone(2);
    if pow2Exp > 0 {
      ok := ShiftLeft(digits, pow2Exp);
    }
  }

  lemma SingleLimb(m: limb)
    ensures Value([] + [m]) == m
  {
    BaseZero();
    ValueOfEmpty([]);
    ValueOfPush([], m);
  }
}
