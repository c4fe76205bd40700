/** Binary formats, what rounding to nearest with ties to even means in them, and the rounding of an
    extended number by a callback. */
module Rounding {
  import opened Powers
  import opened Bits

  datatype Format = Format(mantissaBits: nat, minimumExponent: int, infinitePower: nat)

  const DOUBLE := Format(52, -1023, 0x7FF)
  const FLOAT := Format(23, -127, 0xFF)

  predicate ValidFormat(f: Format) {
    1 <= f.mantissaBits <= 61 && f.minimumExponent <= -1 && 2 <= f.infinitePower
  }

  function Bias(f: Format): nat
    requires ValidFormat(f)
  {
    f.mantissaBits - f.minimumExponent
  }

  /** 2^mantissaBits, the hidden bit. */
  function Hidden(f: Format): nat {
    Pow2(f.mantissaBits)
  }

  /** The word of infinity. */
  function Infinity(f: Format): int {
    f.infinitePower * Hidden(f)
  }

  /** The magnitude that a word of the format stands for, in units of the smallest denormal; the word
      of infinity stands for the power of two after the largest finite number. */
  function Units(f: Format, word: int): int
    requires 0 <= word
  {
    PowPositive(2, f.mantissaBits);
    var q, m := word / Hidden(f), word % Hidden(f);
    if q <= 0 then m else (Hidden(f) + m) * Pow2(q - 1)
  }

  function Abs(x: int): nat {
    if x < 0 then -x else x
  }

  /** Rounding to nearest with ties to even, section 4.3.1 of IEEE 754-2019: no word of the format
      lies closer to x / d units, and an equally close one means that this word is even. */
  ghost predicate IsNearest(f: Format, x: int, d: int, word: int) {
    && 0 <= word <= Infinity(f)
    && forall other :: 0 <= other <= Infinity(f) ==>
         && Abs(x - d * Units(f, word)) <= Abs(x - d * Units(f, other))
         && (other != word && Abs(x - d * Units(f, word)) == Abs(x - d * Units(f, other)) ==> word % 2 == 0)
  }

  // ---------- the words of a format are ordered by magnitude

  /** A word written as exponent and mantissa, where the mantissa may reach the next power. */
  lemma UnitsOfPair(f: Format, power: nat, m: int)
    requires ValidFormat(f) && 1 <= power && Hidden(f) <= m <= 2 * Hidden(f)
    ensures var word := (power - 1) * Hidden(f) + m;
            0 <= word && Units(f, word) == m * Pow2(power - 1)
  {
    var p := Hidden(f);
    PowPositive(2, f.mantissaBits);
    MulMonotonic(p, 0, power - 1);
    MulDistributes(p, power, -1);
    MulDistributes(p, power, 1);
    if m < 2 * p {
      DivModUnique((power - 1) * p + m, p, power, m - p);
    } else {
      DivModUnique((power - 1) * p + m, p, power + 1, 0);
      MulAssociates(p, 2, Pow2(power - 1));
    }
  }

  lemma UnitsOfDenormal(f: Format, m: int)
    requires ValidFormat(f) && 0 <= m <= Hidden(f)
    ensures Units(f, m) == m
  {
    var p := Hidden(f);
    PowPositive(2, f.mantissaBits);
    if m < p {
      DivModUnique(m, p, 0, m);
    } else {
      DivModUnique(m, p, 1, 0);
    }
  }

  /** Every word is a pair with a mantissa below the next power, or a denormal. */
  lemma WordAsPair(f: Format, word: int) returns (power: nat, m: int)
    requires ValidFormat(f) && Hidden(f) <= word
    ensures 1 <= power && Hidden(f) <= m < 2 * Hidden(f) && word == (power - 1) * Hidden(f) + m
    ensures power == word / Hidden(f)
  {
    var p := Hidden(f);
    PowPositive(2, f.mantissaBits);
    DivModSplit(word, p);
    power, m := word / p, word % p + p;
    if power <= 0 {
      MulMonotonic(p, power, 0);
    }
    MulDistributes(p, power, -1);
  }

  lemma UnitsStep(f: Format, word: int)
    requires ValidFormat(f) && 0 <= word
    ensures Units(f, word) < Units(f, word + 1)
  {
    hide Units, Pow;
    if word < Hidden(f) {
      UnitsOfDenormal(f, word);
      UnitsOfDenormal(f, word + 1);
    } else {
      var power, m := WordAsPair(f, word);
      UnitsOfPair(f, power, m);
      UnitsOfPair(f, power, m + 1);
      PowPositive(2, power - 1);
      MulOrder(Pow2(power - 1), m, m + 1);
    }
  }

  lemma {:induction false} UnitsMonotonic(f: Format, a: int, b: int)
    requires ValidFormat(f) && 0 <= a <= b
    ensures Units(f, a) <= Units(f, b)
    decreases b - a
  {
    if a < b {
      UnitsMonotonic(f, a, b - 1);
      UnitsStep(f, b - 1);
    }
  }

  // ---------- what decides the nearest word

  /** Between two neighbouring words the midpoint decides, and at the midpoint evenness. */
  lemma NearestNeighbour(f: Format, x: int, d: int, word: int, up: bool)
    requires ValidFormat(f) && 0 < d && 0 <= word < Infinity(f)
    requires d * Units(f, word) <= x <= d * Units(f, word + 1)
    requires var twice := d * Units(f, word) + d * Units(f, word + 1);
             up == (2 * x > twice || (2 * x == twice && word % 2 == 1))
    ensures IsNearest(f, x, d, if up then word + 1 else word)
  {
    hide Units, Infinity;
    var c := if up then word + 1 else word;
    UnitsStep(f, word);
    MulOrder(d, Units(f, word), Units(f, word + 1));
    forall other | 0 <= other <= Infinity(f)
      ensures Abs(x - d * Units(f, c)) <= Abs(x - d * Units(f, other))
      ensures other != c && Abs(x - d * Units(f, c)) == Abs(x - d * Units(f, other)) ==> c % 2 == 0
    {
      OutsideNeighbours(f, d, word, other);
      CloserNeighbour(x, d * Units(f, word), d * Units(f, word + 1), d * Units(f, other), up, word % 2 == 1);
    }
  }

  lemma OutsideNeighbours(f: Format, d: int, word: int, other: int)
    requires ValidFormat(f) && 0 < d && 0 <= word && 0 <= other
    ensures other < word ==> d * Units(f, other) < d * Units(f, word)
    ensures word + 1 < other ==> d * Units(f, word + 1) < d * Units(f, other)
  {
    hide Units;
    if other < word {
      UnitsMonotonic(f, other, word - 1);
      UnitsStep(f, word - 1);
      MulOrder(d, Units(f, other), Units(f, word));
    } else if word + 1 < other {
      UnitsMonotonic(f, word + 2, other);
      UnitsStep(f, word + 1);
      MulOrder(d, Units(f, word + 1), Units(f, other));
    }
  }

  /** Of two neighbours a < b around x, the one chosen is at least as close as any third point o. */
  lemma CloserNeighbour(x: int, a: int, b: int, o: int, up: bool, odd: bool)
    requires a <= x <= b && a < b && (o <= a || b <= o)
    requires up == (2 * x > a + b || (2 * x == a + b && odd))
    ensures var c := if up then b else a;
            && Abs(x - c) <= Abs(x - o)
            && (o != c && Abs(x - c) == Abs(x - o) ==> (up <==> odd))
  {
  }

  /** From the power of two after the largest finite number on, infinity is the nearest word. */
  lemma NearestIsInfinity(f: Format, x: int, d: int)
    requires ValidFormat(f) && 0 < d && d * Units(f, Infinity(f)) <= x && 0 <= Infinity(f)
    ensures IsNearest(f, x, d, Infinity(f))
  {
    hide Units;
    var c := Infinity(f);
    forall other | 0 <= other <= c
      ensures Abs(x - d * Units(f, c)) <= Abs(x - d * Units(f, other))
      ensures other != c ==> Abs(x - d * Units(f, c)) < Abs(x - d * Units(f, other))
    {
      if other < c {
        UnitsMonotonic(f, other, c - 1);
        UnitsStep(f, c - 1);
        MulOrder(d, Units(f, other), Units(f, c));
      }
    }
  }

  /** Scaling both sides does not change which word is nearest. */
  lemma NearestUnscaled(f: Format, k: int, x: int, d: int, word: int)
    requires 0 < k && IsNearest(f, k * x, k * d, word)
    ensures IsNearest(f, x, d, word)
  {
    hide Units;
    forall other | 0 <= other <= Infinity(f)
      ensures Abs(x - d * Units(f, word)) <= Abs(x - d * Units(f, other))
      ensures other != word && Abs(x - d * Units(f, word)) == Abs(x - d * Units(f, other)) ==> word % 2 == 0
    {
      ScaledAbs(k, x, d, Units(f, word));
      ScaledAbs(k, x, d, Units(f, other));
      MulOrder(k, Abs(x - d * Units(f, other)), Abs(x - d * Units(f, word)));
    }
  }

  lemma ScaledAbs(k: int, x: int, d: int, u: int)
    requires 0 < k
    ensures Abs(k * x - k * d * u) == k * Abs(x - d * u)
  {
    MulAssociates(k, d, u);
    MulDistributes(k, x, -(d * u));
    assert k * -(d * u) == -(k * (d * u));
    if x - d * u < 0 {
      MulOrder(k, x - d * u, 0);
    } else {
      MulMonotonic(k, 0, x - d * u);
    }
    assert k * -(x - d * u) == -(k * (x - d * u));
  }

  // ---------- rounding an extended number

  /** mantissa * 2^power2, up to the format's bias. */
  datatype AdjustedMantissa = AdjustedMantissa(mantissa: int, power2: int)

  function RoundDown(am: AdjustedMantissa, shift: nat): AdjustedMantissa
    requires 0 <= am.mantissa
  {
    AdjustedMantissa(if shift == 64 then 0 else Shr(am.mantissa, shift), am.power2 + shift)
  }

  function RoundNearestTieEven(am: AdjustedMantissa, shift: nat, up: (bool, bool, bool) -> bool): AdjustedMantissa
    requires 0 <= am.mantissa < TWO64 && 0 < shift <= 64
  {
    PowPositive(2, shift);
    var mask := if shift == 64 then TWO64 - 1 else Pow2(shift) - 1;
    var halfway := Pow2(shift - 1);
    var truncatedBits := And(am.mantissa, mask);
    var isAbove, isHalfway := truncatedBits > halfway, truncatedBits == halfway;
    var shifted := RoundDown(am, shift);
    var isOdd := shifted.mantissa % 2 == 1;
    shifted.(mantissa := shifted.mantissa + if up(isOdd, isHalfway, isAbove) then 1 else 0)
  }

  /** The shift that round passes to its callback. */
  function RoundingShift(f: Format, am: AdjustedMantissa): (shift: nat)
    requires ValidFormat(f)
    ensures 0 < shift <= 64
  {
    var mantissaShift := 64 - f.mantissaBits - 1;
    if -am.power2 >= mantissaShift then (if -am.power2 + 1 < 64 then -am.power2 + 1 else 64) else mantissaShift
  }

  /** What round makes of the callback's result. */
  function Finish(f: Format, am: AdjustedMantissa, cb: AdjustedMantissa): AdjustedMantissa
    requires ValidFormat(f) && 0 <= cb.mantissa
  {
    if -am.power2 >= 64 - f.mantissaBits - 1 then
      AdjustedMantissa(cb.mantissa, if cb.mantissa < Hidden(f) then 0 else 1)
    else
      var carried := if cb.mantissa >= 2 * Hidden(f) then AdjustedMantissa(Hidden(f), cb.power2 + 1) else cb;
      HiddenInRange(f);
      PowPositive(2, f.mantissaBits);
      var cleared := And(carried.mantissa, TWO64 - 1 - Hidden(f));
      if carried.power2 >= f.infinitePower then AdjustedMantissa(0, f.infinitePower)
      else AdjustedMantissa(cleared, carried.power2)
  }

  lemma HiddenInRange(f: Format)
    requires ValidFormat(f)
    ensures 2 <= Hidden(f) && Hidden(f) % 2 == 0 && 4 * Hidden(f) <= TWO64
  {
    PowMonotonic(2, f.mantissaBits, 62);
    PowMonotonic(2, 1, f.mantissaBits);
    PowAdd(2, 62, 2);
    TwoToThe64();
    assert Pow2(2) == 4;
  }

  /** The word of a rounded magnitude: mantissa bits joined with the shifted exponent. */
  function ToWord(f: Format, am: AdjustedMantissa): int
    requires 0 <= am.mantissa && 0 <= am.power2
  {
    PowPositive(2, f.mantissaBits);
    MulMonotonic(Hidden(f), 0, am.power2);
    Or(am.power2 * Hidden(f), am.mantissa)
  }

  lemma ClearedHiddenBit(f: Format, m: int)
    requires ValidFormat(f) && Hidden(f) <= m < 2 * Hidden(f)
    ensures 0 <= TWO64 - 1 - Hidden(f)
    ensures And(m, TWO64 - 1 - Hidden(f)) == m - Hidden(f)
  {
    hide And;
    HiddenInRange(f);
    var k, p := f.mantissaBits, Hidden(f);
    var n := Pow2(64 - k) - 2;
    PowAdd(2, 64 - k, k);
    TwoToThe64();
    PowMonotonic(2, 1, 64 - k);
    MulDistributes(p, Pow2(64 - k), -2);
    AndSplit(k, m - p, 1, p - 1, n, m, TWO64 - 1 - p);
    AndLowMask(m - p, k);
    DivModUnique(m - p, p, 0, m - p);
    assert n == 2 * (Pow2(63 - k) - 1);
    PowPositive(2, 63 - k);
    AndStep(1, n);
    AndZero(n / 2);
  }

  /** Rounding a normal number, in words: a carry into the next power is the next word, and words
      from infinity on become infinity. */
  lemma FinishNormal(f: Format, am: AdjustedMantissa, m: int, power: int)
    requires ValidFormat(f) && -am.power2 < 64 - f.mantissaBits - 1
    requires Hidden(f) <= m <= 2 * Hidden(f) && 1 <= power
    ensures var a := Finish(f, am, AdjustedMantissa(m, power));
            && 0 <= a.mantissa < Hidden(f) && 0 <= a.power2 <= f.infinitePower
            && var word := (power - 1) * Hidden(f) + m;
               ToWord(f, a) == if word < Infinity(f) then word else Infinity(f)
  {
    hide And, Or;
    HiddenInRange(f);
    var p := Hidden(f);
    var carried := if m >= 2 * p then AdjustedMantissa(p, power + 1) else AdjustedMantissa(m, power);
    ClearedHiddenBit(f, carried.mantissa);
    var a := Finish(f, am, AdjustedMantissa(m, power));
    OrDisjoint(f.mantissaBits, a.power2, a.mantissa);
    MulDistributes(p, power, -1);
    MulDistributes(p, power, 1);
    if carried.power2 < f.infinitePower {
      MulMonotonic(p, carried.power2 + 1, f.infinitePower);
      MulDistributes(p, carried.power2, 1);
    } else {
      MulMonotonic(p, f.infinitePower, carried.power2);
    }
  }

  /** Rounding a denormal: reaching the hidden bit makes it the smallest normal number. */
  lemma FinishDenormal(f: Format, am: AdjustedMantissa, m: int, power: int)
    requires ValidFormat(f) && -am.power2 >= 64 - f.mantissaBits - 1
    requires 0 <= m <= Hidden(f)
    ensures var a := Finish(f, am, AdjustedMantissa(m, power));
            && 0 <= a.mantissa && 0 <= a.power2 <= 1 && ToWord(f, a) == m < Infinity(f)
  {
    hide And, Or;
    var p := Hidden(f);
    HiddenInRange(f);
    MulMonotonic(p, 2, f.infinitePower);
    if m < p {
      OrDisjoint(f.mantissaBits, 0, m);
    } else {
      OrIdempotent(p);
    }
  }

  lemma {:induction false} OrIdempotent(x: nat)
    ensures Or(x, x) == x
  {
    if x != 0 {
      OrIdempotent(x / 2);
    }
  }
}
