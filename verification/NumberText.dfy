/** Scanning a decimal literal: the mantissa and exponent that are kept always bracket the literal,
    however many digits it has. */
module NumberText {
  import opened Powers
  import opened Bits
  import opened Bytes
  import opened Digits

  /** The format flags the scanner tests, and the character used as decimal point. */
  datatype Options = Options(scientific: bool, fixed: bool, json: bool, fortran: bool, decimalPoint: byte) {
    predicate Valid() {
      !IsDigit(decimalPoint)
    }
  }

  /** What scanning gives: the literal is mantissa * 10^exponent, exactly unless tooManyDigits. */
  datatype Scan =
    | Rejected
    | Accepted(negative: bool, mantissa: word, exponent: int, lastMatch: nat, tooManyDigits: bool,
               integer: Text, fraction: Text)

  const PLUS: byte := 43
  const EXPONENT_LIMIT: int := 0x1000_0000
  const MAX_DIGITS: nat := 19
  const NINETEEN_DIGITS: int := 1_000_000_000_000_000_000  // the least integer of nineteen digits

  // ---------- the parts of a literal

  function IntegerEnd(text: Text): (e: nat)
    ensures Start(text) <= e <= |text|
  {
    DigitsEnd(text, Start(text))
  }

  function Integer(text: Text): Text {
    text[Start(text)..IntegerEnd(text)]
  }

  predicate HasPoint(text: Text, o: Options) {
    IntegerEnd(text) < |text| && text[IntegerEnd(text)] == o.decimalPoint
  }

  function FractionStart(text: Text, o: Options): (b: nat)
    ensures b <= |text|
  {
    if HasPoint(text, o) then IntegerEnd(text) + 1 else IntegerEnd(text)
  }

  function FractionEnd(text: Text, o: Options): (e: nat)
    ensures FractionStart(text, o) <= e <= |text|
  {
    if HasPoint(text, o) then DigitsEnd(text, IntegerEnd(text) + 1) else IntegerEnd(text)
  }

  function Fraction(text: Text, o: Options): Text {
    text[FractionStart(text, o)..FractionEnd(text, o)]
  }

  /** All digits of the literal, without the point. */
  function LiteralDigits(text: Text, o: Options): Text {
    Integer(text) + Fraction(text, o)
  }

  /** The exponent part at position q: malformed, or its sign, its digits and where it ends. */
  datatype ExponentPart = Malformed | Part(negative: bool, digits: Text, end: nat)

  predicate StartsExponent(c: byte, o: Options) {
    || (o.scientific && (c == 101 || c == 69))  // e E
    || (o.fortran && (c == PLUS || c == MINUS || c == 100 || c == 68))  // + - d D
  }

  predicate IsExponentLetter(c: byte) {
    c == 101 || c == 69 || c == 100 || c == 68
  }

  function ExponentAt(text: Text, q: nat, o: Options): ExponentPart
    requires q <= |text|
  {
    if q < |text| && StartsExponent(text[q], o) then
      var s := if IsExponentLetter(text[q]) then q + 1 else q;
      var signed := s < |text| && (text[s] == MINUS || text[s] == PLUS);
      var b := if signed then s + 1 else s;
      var e := DigitsEnd(text, b);
      if b < e then Part(signed && text[s] == MINUS, text[b..e], e)
      else if o.fixed then Part(false, [], q)
      else Malformed
    else if o.scientific && !o.fixed then Malformed
    else Part(false, [], q)
  }

  predicate SignIsFollowed(text: Text, o: Options) {
    |text| > 0 && (text[0] == MINUS ==> |text| > 1 && (IsDigit(text[1]) || (!o.json && text[1] == o.decimalPoint)))
  }

  predicate HasDigits(text: Text, o: Options) {
    if o.json then
      && |Integer(text)| > 0
      && (|Integer(text)| > 1 ==> Integer(text)[0] != ZERO)
      && (HasPoint(text, o) ==> |Fraction(text, o)| > 0)
    else
      |Integer(text)| + |Fraction(text, o)| > 0
  }

  /** The grammar. */
  predicate IsLiteral(text: Text, o: Options) {
    SignIsFollowed(text, o) && HasDigits(text, o) && !ExponentAt(text, FractionEnd(text, o), o).Malformed?
  }

  // ---------- what the scan keeps of the digits

  /** Number of zeros at the front. */
  function LeadingZeros(s: Text): (n: nat)
    ensures n <= |s| && (forall i :: 0 <= i < n ==> s[i] == ZERO) && (n < |s| ==> s[n] != ZERO)
  {
    if |s| > 0 && s[0] == ZERO then 1 + LeadingZeros(s[1..]) else 0
  }

  function SignificantDigits(s: Text): nat {
    |s| - LeadingZeros(s)
  }

  /** m is all of the digits s when at most nineteen are significant, and otherwise the number that
      remains when the last dropped digits are cut off, which has exactly nineteen digits. */
  ghost predicate Keeps(s: Text, m: int, dropped: int, tooMany: bool) {
    && tooMany == (SignificantDigits(s) > MAX_DIGITS)
    && if tooMany then
         0 < dropped <= |s| && m == DecVal(s[..|s| - dropped]) && NINETEEN_DIGITS <= m < 10 * NINETEEN_DIGITS
       else
         dropped == 0 && m == DecVal(s)
  }

  /** The exponent value that is accumulated: digits after it reaches the limit are ignored. */
  ghost function Clamped(s: Text): int {
    if |s| == 0 then 0
    else
      var v := Clamped(s[..|s| - 1]);
      if v < EXPONENT_LIMIT then 10 * v + DigitOf(s[|s| - 1]) else v
  }

  ghost function ClampedExponent(p: ExponentPart): int
    requires p.Part?
  {
    if p.negative then -Clamped(p.digits) else Clamped(p.digits)
  }

  /** The exponent as written. */
  ghost function WrittenExponent(p: ExponentPart): int
    requires p.Part?
  {
    if p.negative then -DecVal(p.digits) else DecVal(p.digits)
  }

  /** The whole answer. */
  ghost predicate IsScanOf(r: Scan, text: Text, o: Options) {
    if !IsLiteral(text, o) then r == Rejected
    else
      var part := ExponentAt(text, FractionEnd(text, o), o);
      && r.Accepted?
      && r.negative == (text[0] == MINUS)
      && r.integer == Integer(text) && r.fraction == Fraction(text, o)
      && r.lastMatch == part.end
      && Keeps(LiteralDigits(text, o), r.mantissa, r.exponent - (ClampedExponent(part) - |r.fraction|), r.tooManyDigits)
  }

  // ---------- lemmas on digits

  lemma NineteenDigits()
    ensures Pow(10, 18) == NINETEEN_DIGITS && Pow(10, 19) == 10 * NINETEEN_DIGITS
  {
    assert Pow(10, 3) == 1000;
    PowAdd(10, 3, 3);
    PowAdd(10, 6, 6);
    PowAdd(10, 12, 6);
  }

  lemma SignificantPart(s: Text)
    requires AllDigits(s)
    ensures AllDigits(s[LeadingZeros(s)..]) && DecVal(s) == DecVal(s[LeadingZeros(s)..])
  {
    hide DecVal;
    var z := LeadingZeros(s);
    assert AllDigits(s[z..]);
    assert s[z..|s|] == s[z..] && s[0..|s|] == s;
    NoLeadingZeros(s, 0, z, |s|);
  }

  lemma FewDigits(s: Text)
    requires AllDigits(s) && SignificantDigits(s) <= MAX_DIGITS
    ensures DecVal(s) < 10 * NINETEEN_DIGITS && Accumulated(0, s) == DecVal(s)
  {
    hide LeadingZeros, Pow;
    var t := s[LeadingZeros(s)..];
    SignificantPart(s);
    DecValBound(t);
    NineteenDigits();
    PowMonotonic(10, |t|, 19);
  }

  lemma ManyDigits(s: Text)
    requires AllDigits(s) && SignificantDigits(s) > MAX_DIGITS
    ensures DecVal(s) >= 10 * NINETEEN_DIGITS
  {
    hide Pow;
    var t := s[LeadingZeros(s)..];
    SignificantPart(s);
    DecValAtLeast(t);
    NineteenDigits();
    PowMonotonic(10, 19, |t| - 1);
  }

  /** The digits before the cut, and the cut itself, bracket the whole. */
  lemma CutBrackets(s: Text, dropped: nat)
    requires AllDigits(s) && dropped <= |s|
    ensures DecVal(s[..|s| - dropped]) * Pow(10, dropped) <= DecVal(s)
            < (DecVal(s[..|s| - dropped]) + 1) * Pow(10, dropped)
  {
    hide DecVal, Pow;
    var a, b := s[..|s| - dropped], s[|s| - dropped..];
    assert s == a + b;
    DecValConcat(a, b);
    AllDigitsConcat(a, b);
    DecValBound(b);
    MulDistributes(Pow(10, dropped), DecVal(a), 1);
  }

  /** The clamped exponent is the written one exactly when all but its last digit stay below the limit. */
  lemma {:induction false} ClampedIsExact(s: Text)
    requires AllDigits(s)
    ensures 0 <= Clamped(s) <= DecVal(s)
    ensures Clamped(s) == DecVal(s) <==> |s| == 0 || DecVal(s[..|s| - 1]) < EXPONENT_LIMIT
    ensures Clamped(s) < DecVal(s) ==> EXPONENT_LIMIT <= Clamped(s)
  {
    if |s| != 0 {
      ClampedIsExact(s[..|s| - 1]);
    }
  }

  /** What is accumulated is the shortest prefix of the digits that reaches 2^28, or all of them. */
  ghost predicate IsReadPart(s: Text, n: nat) {
    && n <= |s| && (n == |s| || 268435456 <= DecVal(s[..n]))
    && (n > 0 ==> DecVal(s[..n - 1]) < 268435456)
  }

  lemma {:induction false} ClampedIsPrefix(s: Text) returns (n: nat)
    requires AllDigits(s)
    ensures IsReadPart(s, n) && Clamped(s) == DecVal(s[..n])
  {
    hide DecVal;
    if |s| == 0 {
      n := 0;
      DecValOfNone(s[..0]);
    } else {
      var m := |s| - 1;
      n := ClampedIsPrefix(s[..m]);
      assert s[..m][..n] == s[..n] && (n > 0 ==> s[..m][..n - 1] == s[..n - 1]);
      if DecVal(s[..n]) < 268435456 {
        n := |s|;
        assert s[..|s|] == s && s == s[..m] + [s[m]];
        DecValPush(s[..m], s[m]);
      }
    }
  }

  lemma ClampedPush(s: Text, c: byte)
    ensures Clamped(s + [c]) == if Clamped(s) < EXPONENT_LIMIT then 10 * Clamped(s) + DigitOf(c) else Clamped(s)
  {
    assert (s + [c])[..|s|] == s;
  }

  // ---------- the theorem: the scan brackets the literal

  /** 10^e for any integer e. */
  ghost function Ten(e: int): real {
    if e >= 0 then Pow(10, e) as real else 1.0 / PowPos(-e)
  }

  ghost function PowPos(e: nat): (r: real)
    ensures r > 0.0
  {
    PowPositive(10, e);
    Pow(10, e) as real
  }

  lemma TenStep(e: int)
    ensures Ten(e) > 0.0 && Ten(e + 1) == 10.0 * Ten(e)
  {
    if e >= 0 {
      PowPositive(10, e);
    } else {
      var q := PowPos(-e - 1);
      assert PowPos(-e) == 10.0 * q;
      assert 10.0 * (1.0 / (10.0 * q)) == 1.0 / q;
    }
  }

  lemma PowStep(k: nat)
    ensures Pow(10, 0) as real == 1.0
    ensures Pow(10, k + 1) as real == 10.0 * Pow(10, k) as real
  {
    assert Pow(10, k + 1) == 10 * Pow(10, k);
  }

  lemma {:induction false} TenAdd(e: int, k: nat)
    ensures Ten(e) > 0.0 && Ten(e + k) == Pow(10, k) as real * Ten(e)
  {
    hide Ten, Pow;
    TenStep(e);
    PowStep(k);
    if k != 0 {
      TenAdd(e, k - 1);
      TenStep(e + k - 1);
      PowStep(k - 1);
      RealAssociates(10.0, Pow(10, k - 1) as real, Ten(e));
    }
  }

  lemma RealProduct(a: int, b: int)
    ensures (a * b) as real == a as real * b as real
  {
  }

  lemma RealAssociates(a: real, b: real, c: real)
    ensures a * (b * c) == a * b * c
  {
  }

  lemma RealOrder(x: real, y: real, k: real)
    requires k > 0.0
    ensures x <= y ==> x * k <= y * k
    ensures x < y ==> x * k < y * k
  {
    if x <= y {
      assert (y - x) * k >= 0.0;
    }
    if x < y {
      assert (y - x) * k > 0.0;
    }
  }

  lemma DropScales(v: int, m: int, dropped: nat, e: int)
    requires m * Pow(10, dropped) <= v < (m + 1) * Pow(10, dropped)
    ensures m as real * Ten(e + dropped) <= v as real * Ten(e) < (m + 1) as real * Ten(e + dropped)
  {
    hide Ten, Pow;
    TenAdd(e, dropped);
    var p := Pow(10, dropped);
    RealProduct(m, p);
    RealProduct(m + 1, p);
    ScaleBracket(m as real, (m + 1) as real, p as real, v as real, Ten(e), Ten(e + dropped));
  }

  lemma ScaleBracket(low: real, high: real, p: real, v: real, t: real, u: real)
    requires t > 0.0 && u == p * t && low * p <= v < high * p
    ensures low * u <= v * t < high * u
  {
    RealAssociates(low, p, t);
    RealAssociates(high, p, t);
    RealOrder(low * p, v, t);
    RealOrder(v, high * p, t);
  }

  lemma PartsAreDigits(text: Text, o: Options)
    ensures AllDigits(Integer(text)) && AllDigits(Fraction(text, o)) && AllDigits(LiteralDigits(text, o))
  {
    RunIsDigits(text, Start(text));
    if HasPoint(text, o) {
      RunIsDigits(text, IntegerEnd(text) + 1);
    }
    AllDigitsConcat(Integer(text), Fraction(text, o));
  }

  lemma {:induction false} RunIsDigits(text: Text, from: nat)
    requires from <= |text|
    ensures AllDigits(text[from..DigitsEnd(text, from)])
    decreases |text| - from
  {
    var e := DigitsEnd(text, from);
    if from < e {
      RunIsDigits(text, from + 1);
      assert text[from..e] == [text[from]] + text[from + 1..e];
      AllDigitsConcat([text[from]], text[from + 1..e]);
    }
  }

  /** m * 10^f is v * 10^e, or when digits were cut, that lies in [m, m + 1) * 10^f. */
  ghost predicate Brackets(m: int, f: int, v: int, e: int, cut: bool) {
    if cut then m as real * Ten(f) <= v as real * Ten(e) < (m + 1) as real * Ten(f)
    else m as real * Ten(f) == v as real * Ten(e)
  }

  /** The scale of the literal's digits: as written, and as the scanner accumulates it. */
  ghost function WrittenScale(text: Text, o: Options): int
    requires IsLiteral(text, o)
  {
    WrittenExponent(ExponentAt(text, FractionEnd(text, o), o)) - |Fraction(text, o)|
  }

  ghost function ScaleOf(text: Text, o: Options): int
    requires IsLiteral(text, o)
  {
    ClampedExponent(ExponentAt(text, FractionEnd(text, o), o)) - |Fraction(text, o)|
  }

  /** The magnitude the text writes is all its digits, scaled by its exponent. With at most nineteen
      significant digits the scan is that magnitude; with more, the magnitude lies in
      [mantissa, mantissa + 1) * 10^exponent and the mantissa has nineteen digits. */
  ghost predicate BracketsLiteral(r: Scan, text: Text, o: Options)
    requires r.Accepted? && IsLiteral(text, o)
  {
    && Brackets(r.mantissa, r.exponent, DecVal(LiteralDigits(text, o)), WrittenScale(text, o), r.tooManyDigits)
    && r.tooManyDigits == (SignificantDigits(LiteralDigits(text, o)) > MAX_DIGITS)
    && (r.tooManyDigits ==> NINETEEN_DIGITS <= r.mantissa)
  }

  /** The digits of the written exponent stay below the limit at which accumulating stops. */
  ghost predicate BelowSaturation(digits: Text) {
    |digits| == 0 || DecVal(digits[..|digits| - 1]) < EXPONENT_LIMIT
  }

  /** The scan brackets the literal exactly when its exponent is below saturation, or it is zero. */
  lemma ScanBracketsLiteral(r: Scan, text: Text, o: Options)
    requires IsScanOf(r, text, o) && IsLiteral(text, o)
    ensures BracketsLiteral(r, text, o) <==>
            r.mantissa == 0 || BelowSaturation(ExponentAt(text, FractionEnd(text, o), o).digits)
  {
    hide Ten, DecVal, Clamped, LeadingZeros, DigitsEnd, ExponentAt, HasDigits, SignIsFollowed, Pow, Brackets;
    var s := LiteralDigits(text, o);
    var part := ExponentAt(text, FractionEnd(text, o), o);
    ExponentPartIsDigits(text, FractionEnd(text, o), o);
    ClampedIsExact(part.digits);
    var e := WrittenExponent(part) - |r.fraction|;
    var e' := ClampedExponent(part) - |r.fraction|;
    PartsAreDigits(text, o);
    KeptAtScale(s, r.mantissa, r.exponent - e', e, e', r.exponent, r.tooManyDigits);
  }

  lemma KeptAtScale(s: Text, m: int, dropped: int, e: int, e': int, f: int, cut: bool)
    requires AllDigits(s) && Keeps(s, m, dropped, cut) && 0 <= m && f == e' + dropped
    ensures Brackets(m, f, DecVal(s), e, cut) <==> m == 0 || e == e'
  {
    hide DecVal, Pow, Brackets, SignificantDigits, AllDigits;
    CutBrackets(s, dropped);
    assert s[..|s|] == s;
    BracketAtScale(DecVal(s), m, dropped, e, e', f, cut);
  }

  /** A cut number brackets the whole at its own scale, and at no other unless it is zero. */
  lemma BracketAtScale(v: int, m: int, dropped: nat, e: int, e': int, f: int, cut: bool)
    requires f == e' + dropped
    requires 0 <= m && m * Pow(10, dropped) <= v < (m + 1) * Pow(10, dropped)
    requires if cut then 0 < m else dropped == 0 && v == m
    ensures Brackets(m, f, v, e, cut) <==> m == 0 || e == e'
  {
    hide Ten, Pow;
    DropScales(v, m, dropped, e);
    if e != e' && m != 0 {
      ScalesDiffer(m, e + dropped, f);
    }
  }

  /** A one and nine zeros as exponent digits are still read exactly, a tenth zero is not. */
  lemma SaturatedDigits(s: Text)
    requires s == [49] + seq(10, _ => ZERO)
    ensures AllDigits(s) && !BelowSaturation(s) && Clamped(s) == 1_000_000_000
  {
    hide DecVal, Clamped, BelowSaturation;
    var t := s[..10];
    assert t == [49] + t[1..] && s == t + [ZERO];
    TenDigits(t);
    OneMoreDigit(t, ZERO);
    ClampedPush(t, ZERO);
    ClampedIsExact(t);
    NotBelow(s, t);
  }

  lemma NotBelow(s: Text, t: Text)
    requires s == t + [ZERO] && EXPONENT_LIMIT <= DecVal(t)
    ensures !BelowSaturation(s)
  {
    hide DecVal;
    assert s[..|s| - 1] == t;
  }

  lemma TenDigits(t: Text)
    requires |t| == 10 && t[0] == 49 && forall i :: 1 <= i < 10 ==> t[i] == ZERO
    ensures AllDigits(t) && DecVal(t) == 1_000_000_000 && DecVal(t[..9]) == 100_000_000
  {
    hide DecVal;
    assert t == [49] + t[1..] && t[..9] == [49] + t[1..9];
    DecValOfOne(49);
    DecValOfZeros(t[1..]);
    DecValOfZeros(t[1..9]);
    DecValConcat([49], t[1..]);
    DecValConcat([49], t[1..9]);
    assert Pow(10, 4) == 10000;
    PowAdd(10, 4, 4);
    assert Pow(10, 1) == 10;
    PowAdd(10, 8, 1);
  }

  /** The text 1e10000000000 is a literal that scanning reads as 1e1000000000. */
  lemma SaturationHappens()
    ensures exists text: Text, o: Options, r: Scan ::
              && o.Valid() && IsLiteral(text, o) && IsScanOf(r, text, o) && r.mantissa == 1
              && !BracketsLiteral(r, text, o)
  {
    hide DecVal, Clamped, BelowSaturation, DigitsEnd, LeadingZeros, BracketsLiteral;
    var o := Options(true, true, false, false, 46);
    var digits: Text := [49] + seq(10, _ => ZERO);
    var text: Text := [49, 101] + digits;
    SaturatedDigits(digits);
    assert text[0..1] == [49] && text[2..13] == digits;
    DecValOfOne(49);
    DigitsEndIsMaximal(text, 0, 1);
    DigitsEndIsMaximal(text, 2, 13);
    var r := Accepted(false, 1, 1_000_000_000, 13, false, [49], []);
    assert ExponentAt(text, 1, o) == Part(false, digits, 13);
    assert LiteralDigits(text, o) == [49];
    OneSignificantDigit();
    ScanBracketsLiteral(r, text, o);
  }

  lemma OneSignificantDigit()
    ensures SignificantDigits([49]) == 1
  {
  }

  lemma ExponentPartIsDigits(text: Text, q: nat, o: Options)
    requires q <= |text|
    ensures ExponentAt(text, q, o).Part? ==> AllDigits(ExponentAt(text, q, o).digits)
  {
    hide DigitsEnd;
    if q < |text| && StartsExponent(text[q], o) {
      var s := if IsExponentLetter(text[q]) then q + 1 else q;
      RunIsDigits(text, if s < |text| && (text[s] == MINUS || text[s] == PLUS) then s + 1 else s);
    }
  }

  lemma TenGrows(e: int, f: int)
    requires e < f
    ensures 0.0 < 10.0 * Ten(e) <= Ten(f)
  {
    hide Ten, Pow;
    TenAdd(e, f - e);
    PowMonotonic(10, 1, f - e);
    TenToOne();
    RealOrder(10.0, Pow(10, f - e) as real, Ten(e));
  }

  lemma TenToOne()
    ensures Pow(10, 1) == 10
  {
  }

  /** Intervals [m, m + 1) at different powers of ten do not meet. */
  lemma ScalesDiffer(m: int, e: int, f: int)
    requires 0 < m && e != f
    ensures (m + 1) as real * Ten(e) <= m as real * Ten(f) || (m + 1) as real * Ten(f) <= m as real * Ten(e)
    ensures 0.0 < Ten(e) && 0.0 < Ten(f)
    ensures m as real * Ten(e) < (m + 1) as real * Ten(e) && m as real * Ten(f) < (m + 1) as real * Ten(f)
  {
    hide Ten;
    if e < f {
      TenGrows(e, f);
      TenTimes(m as real, Ten(e), Ten(f));
    } else {
      TenGrows(f, e);
      TenTimes(m as real, Ten(f), Ten(e));
    }
    RealOrder(m as real, (m + 1) as real, Ten(e));
    RealOrder(m as real, (m + 1) as real, Ten(f));
  }

  lemma TenTimes(m: real, x: real, y: real)
    requires 1.0 <= m && 0.0 < x && 10.0 * x <= y
    ensures (m + 1.0) * x <= m * y
  {
    RealOrder(m + 1.0, 10.0 * m, x);
    assert m * (10.0 * x) <= m * y by {
      RealOrder(10.0 * x, y, m);
    }
    RealAssociates(m, 10.0, x);
  }

  // ---------- the grammar as concatenation, in plain characters

  /** A literal cut into its pieces, and what follows it. */
  datatype Pieces = Pieces(minus: bool, integer: Text, point: bool, fraction: Text,
                           mark: Text, negative: bool, exponent: Text, rest: Text)
  {
    /** The power of ten of the last digit. */
    ghost function Scale(): int {
      (if negative then -DecVal(exponent) else DecVal(exponent)) - |fraction|
    }
  }

  ghost predicate OnlyDigits(s: Text) {
    forall i :: 0 <= i < |s| ==> 48 <= s[i] <= 57
  }

  /** Nothing, or something that does not go on with a digit. */
  predicate Breaks(s: Text) {
    |s| > 0 ==> s[0] < 48 || 57 < s[0]
  }

  /** e and E, or d and D, with or without a sign, or only a sign; and whether that is a minus. */
  predicate IsMark(mark: Text, negative: bool, o: Options) {
    || (&& 1 <= |mark| <= 2
        && ((o.scientific && (mark[0] == 101 || mark[0] == 69)) || (o.fortran && (mark[0] == 100 || mark[0] == 68)))
        && (if |mark| == 1 then !negative else (mark[1] == 43 && !negative) || (mark[1] == 45 && negative)))
    || (o.fortran && |mark| == 1 && ((mark[0] == 43 && !negative) || (mark[0] == 45 && negative)))
  }

  ghost predicate BeginsExponent(tail: Text, o: Options) {
    exists mark: Text, negative: bool :: IsMark(mark, negative, o) && LeadsToDigit(tail, mark)
  }

  predicate LeadsToDigit(tail: Text, mark: Text) {
    |mark| < |tail| && tail[..|mark|] == mark && 48 <= tail[|mark|] <= 57
  }

  /** The digits that must be there, under the rules of JSON or without them. */
  predicate EnoughDigitsWritten(integer: Text, point: bool, fraction: Text, json: bool) {
    if json then |integer| > 0 && (|integer| > 1 ==> integer[0] != 48) && (point ==> |fraction| > 0)
    else |integer| + |fraction| > 0
  }

  /** The part before the exponent. */
  ghost predicate IsFront(text: Text, o: Options, minus: bool, integer: Text, point: bool, fraction: Text, tail: Text) {
    && text == (if minus then [45] else []) + integer + (if point then [o.decimalPoint] else []) + fraction + tail
    && OnlyDigits(integer) && OnlyDigits(fraction) && (!point ==> fraction == [])
    && Breaks(tail) && (!point && |tail| > 0 ==> tail[0] != o.decimalPoint)
    && (!minus && |text| > 0 ==> text[0] != 45)
  }

  /** The exponent, and what follows; without one the flags must allow that. */
  ghost predicate IsTail(tail: Text, o: Options, mark: Text, negative: bool, exponent: Text, rest: Text) {
    && tail == mark + exponent + rest && OnlyDigits(exponent) && Breaks(rest)
    && if |exponent| > 0 then IsMark(mark, negative, o)
       else
         && mark == [] && !negative && !BeginsExponent(rest, o)
         && (o.fixed || (!o.scientific && !(o.fortran && |rest| > 0 && (rest[0] == 43 || rest[0] == 45 || rest[0] == 100 || rest[0] == 68))))
  }

  /** The text begins with this literal. */
  ghost predicate Spells(text: Text, o: Options, w: Pieces) {
    && IsFront(text, o, w.minus, w.integer, w.point, w.fraction, w.mark + w.exponent + w.rest)
    && EnoughDigitsWritten(w.integer, w.point, w.fraction, o.json)
    && IsTail(w.mark + w.exponent + w.rest, o, w.mark, w.negative, w.exponent, w.rest)
  }

  lemma FrontIsFound(text: Text, o: Options, minus: bool, integer: Text, point: bool, fraction: Text, tail: Text)
    requires o.Valid() && IsFront(text, o, minus, integer, point, fraction, tail)
    ensures (Start(text) == 1 <==> minus) && Integer(text) == integer && HasPoint(text, o) == point
    ensures Fraction(text, o) == fraction && FractionEnd(text, o) == |text| - |tail| && text[FractionEnd(text, o)..] == tail
  {
    hide DigitsEnd, IsFront, AllDigits, IsDigit;
    FrontPlaces(text, o, minus, integer, point, fraction, tail);
    FrontStops(text, o, minus, integer, point, fraction, tail);
    var a := if minus then 1 else 0;
    var b := a + |integer|;
    DigitsEndIsMaximal(text, a, b);
    if point {
      DigitsEndIsMaximal(text, b + 1, b + 1 + |fraction|);
    }
  }

  lemma FrontPlaces(text: Text, o: Options, minus: bool, integer: Text, point: bool, fraction: Text, tail: Text)
    requires o.Valid() && IsFront(text, o, minus, integer, point, fraction, tail)
    ensures var a := if minus then 1 else 0;
            var b := a + |integer|;
            var c := if point then b + 1 else b;
            var d := c + |fraction|;
            && |text| == d + |tail| && text[a..b] == integer && text[c..d] == fraction && text[d..] == tail
            && (minus <==> |text| > 0 && text[0] == 45)
            && (point ==> text[b] == o.decimalPoint)
            && AllDigits(text[a..b]) && AllDigits(text[c..d])
  {
    var a := if minus then 1 else 0;
    var b := a + |integer|;
    assert minus ==> text[0] == 45;
    assert point ==> text[b] == o.decimalPoint;
  }

  /** Where the runs of digits end. */
  lemma FrontStops(text: Text, o: Options, minus: bool, integer: Text, point: bool, fraction: Text, tail: Text)
    requires o.Valid() && IsFront(text, o, minus, integer, point, fraction, tail)
    ensures var b := (if minus then 1 else 0) + |integer|;
            var d := (if point then b + 1 else b) + |fraction|;
            && b <= |text| && d <= |text|
            && (b < |text| ==> !IsDigit(text[b])) && (d < |text| ==> !IsDigit(text[d]))
            && (!point ==> fraction == [] && (b < |text| ==> text[b] != o.decimalPoint))
  {
    hide OnlyDigits;
    var b := (if minus then 1 else 0) + |integer|;
    var d := (if point then b + 1 else b) + |fraction|;
    assert point ==> text[b] == o.decimalPoint;
    assert d < |text| ==> text[d] == tail[0];
  }

  /** Every text has such a front. */
  lemma FrontIsThere(text: Text, o: Options)
    requires o.Valid() && |text| > 0
    ensures IsFront(text, o, text[0] == 45, Integer(text), HasPoint(text, o), Fraction(text, o), text[FractionEnd(text, o)..])
  {
    hide DigitsEnd, AllDigits, OnlyDigits, Breaks, Start;
    var a, b, c, d := Start(text), IntegerEnd(text), FractionStart(text, o), FractionEnd(text, o);
    PartsAreDigits(text, o);
    DigitsAreDigits(Integer(text));
    DigitsAreDigits(Fraction(text, o));
    RunEndsAt(text, a);
    RunEndsAt(text, if HasPoint(text, o) then c else a);
    BreaksAt(text, d);
    CutInFive(text, a, b, c, d);
    SignAndPoint(text, o);
  }

  lemma CutInFive(text: Text, a: nat, b: nat, c: nat, d: nat)
    requires a <= b <= c <= d <= |text|
    ensures text == text[..a] + text[a..b] + text[b..c] + text[c..d] + text[d..]
  {
  }

  lemma SignAndPoint(text: Text, o: Options)
    requires |text| > 0
    ensures text[..Start(text)] == if text[0] == 45 then [45] else []
    ensures IntegerEnd(text) <= FractionStart(text, o)
    ensures text[IntegerEnd(text)..FractionStart(text, o)] == if HasPoint(text, o) then [o.decimalPoint] else []
  {
    hide DigitsEnd;
  }

  lemma {:induction false} RunEndsAt(text: Text, from: nat)
    requires from <= |text|
    ensures DigitsEnd(text, from) < |text| ==> !IsDigit(text[DigitsEnd(text, from)])
    decreases |text| - from
  {
    if from < |text| && IsDigit(text[from]) {
      RunEndsAt(text, from + 1);
    }
  }

  lemma ExponentIsFound(text: Text, q: nat, o: Options, mark: Text, negative: bool, exponent: Text, rest: Text)
    requires q <= |text| && text[q..] == mark + exponent + rest
    requires IsMark(mark, negative, o) && OnlyDigits(exponent) && |exponent| > 0 && Breaks(rest)
    ensures ExponentAt(text, q, o) == Part(negative, exponent, |text| - |rest|)
  {
    hide DigitsEnd;
    var b, e := q + |mark|, q + |mark| + |exponent|;
    ThreeSlices(text, q, mark, exponent, rest);
    assert text[q..b][0] == text[q] && text[b..e][0] == text[b] && (|mark| == 2 ==> text[q..b][1] == text[q + 1]);
    BreaksAt(text, e);
    DigitsAreDigits(exponent);
    DigitsEndIsMaximal(text, b, e);
    MarkIsPassed(text, q, o, mark, negative);
  }

  /** Behind a mark the digits are expected. */
  lemma MarkIsPassed(text: Text, q: nat, o: Options, mark: Text, negative: bool)
    requires IsMark(mark, negative, o) && q + |mark| < |text| && text[q..q + |mark|] == mark && IsDigit(text[q + |mark|])
    ensures StartsExponent(text[q], o)
    ensures var s := if IsExponentLetter(text[q]) then q + 1 else q;
            var signed := text[s] == MINUS || text[s] == PLUS;
            && (if signed then s + 1 else s) == q + |mark|
            && (negative <==> signed && text[s] == MINUS)
  {
    assert text[q..q + |mark|][0] == text[q] && (|mark| == 2 ==> text[q..q + |mark|][1] == text[q + 1]);
  }

  /** Where no exponent begins. */
  lemma NoExponentIsFound(text: Text, q: nat, o: Options)
    requires q <= |text| && !BeginsExponent(text[q..], o)
    ensures ExponentAt(text, q, o) ==
            if o.fixed || (!o.scientific && !(q < |text| && StartsExponent(text[q], o))) then Part(false, [], q) else Malformed
  {
    if q < |text| && StartsExponent(text[q], o) {
      var s := if IsExponentLetter(text[q]) then q + 1 else q;
      var signed := s < |text| && (text[s] == MINUS || text[s] == PLUS);
      var b := if signed then s + 1 else s;
      if b < |text| && IsDigit(text[b]) {
        MarkBegins(text, q, b, o);
      }
    }
  }

  lemma MarkBegins(text: Text, q: nat, b: nat, o: Options)
    requires q < |text| && StartsExponent(text[q], o) && b < |text| && IsDigit(text[b])
    requires var s := if IsExponentLetter(text[q]) then q + 1 else q;
             b == if s < |text| && (text[s] == MINUS || text[s] == PLUS) then s + 1 else s
    ensures IsMark(text[q..b], text[b - 1] == MINUS, o) && LeadsToDigit(text[q..], text[q..b]) && BeginsExponent(text[q..], o)
  {
    var mark, negative := text[q..b], text[b - 1] == MINUS;
    assert text[q..][..b - q] == text[q..b] && text[q..][b - q] == text[b];
    assert b - q == 1 ==> text[q..b] == [text[q]];
    assert b - q == 2 ==> text[q..b] == [text[q], text[q + 1]];
    assert IsMark(mark, negative, o) && LeadsToDigit(text[q..], mark);
  }

  /** The pieces of a literal by position. */
  ghost function PiecesOf(text: Text, o: Options): Pieces
    requires IsLiteral(text, o)
  {
    var q := FractionEnd(text, o);
    var part := ExponentAt(text, q, o);
    PartLies(text, q, o);
    Pieces(text[0] == 45, Integer(text), HasPoint(text, o), Fraction(text, o),
           text[q..part.end - |part.digits|], part.negative, part.digits, text[part.end..])
  }

  /** Where an exponent part lies, and what it is made of. */
  lemma PartLies(text: Text, q: nat, o: Options)
    requires q <= |text| && ExponentAt(text, q, o).Part?
    ensures var part := ExponentAt(text, q, o);
            && q <= part.end - |part.digits| && part.end <= |text|
            && text[part.end - |part.digits|..part.end] == part.digits
            && (|part.digits| == 0 ==> part.end == q && !part.negative)
            && (|part.digits| > 0 ==>
                  && q < |text| && StartsExponent(text[q], o)
                  && (part.end < |text| ==> !IsDigit(text[part.end]))
                  && IsMark(text[q..part.end - |part.digits|], part.negative, o))
  {
    hide DigitsEnd;
    var part := ExponentAt(text, q, o);
    if q < |text| && StartsExponent(text[q], o) {
      var s := if IsExponentLetter(text[q]) then q + 1 else q;
      var b := if s < |text| && (text[s] == MINUS || text[s] == PLUS) then s + 1 else s;
      RunEndsAt(text, b);
      RunIsDigits(text, b);
      if b < DigitsEnd(text, b) {
        assert IsDigit(text[b..DigitsEnd(text, b)][0]);
        MarkBegins(text, q, b, o);
        assert part.negative == (text[b - 1] == MINUS);
      }
    }
  }

  lemma CutInThree(text: Text, q: nat, a: nat, e: nat)
    requires q <= a <= e <= |text|
    ensures text[q..] == text[q..a] + text[a..e] + text[e..]
  {
  }

  lemma ThreeSlices(text: Text, q: nat, x: Text, y: Text, z: Text)
    requires q <= |text| && text[q..] == x + y + z
    ensures |text| == q + |x| + |y| + |z|
    ensures text[q..q + |x|] == x && text[q + |x|..q + |x| + |y|] == y && text[q + |x| + |y|..] == z
  {
    var t := text[q..];
    assert t[..|x|] == x && t[|x|..|x| + |y|] == y && t[|x| + |y|..] == z;
  }

  /** An exponent part, as concatenation. */
  lemma PartIsTail(text: Text, q: nat, o: Options)
    requires q <= |text| && ExponentAt(text, q, o).Part? && Breaks(text[q..])
    ensures var part := ExponentAt(text, q, o);
            && q <= part.end - |part.digits| && part.end <= |text|
            && var mark := text[q..part.end - |part.digits|];
            && text[q..] == mark + part.digits + text[part.end..]
            && IsTail(text[q..], o, mark, part.negative, part.digits, text[part.end..])
  {
    hide IsMark, BeginsExponent, ExponentAt, AllDigits, OnlyDigits, Breaks, StartsExponent;
    var part := ExponentAt(text, q, o);
    PartLies(text, q, o);
    ExponentPartIsDigits(text, q, o);
    DigitsAreDigits(part.digits);
    CutInThree(text, q, part.end - |part.digits|, part.end);
    BreaksAt(text, part.end);
    if |part.digits| == 0 {
      NothingBegun(text, q, o);
      NoDigitsAllowed(text, q, o);
    }
  }

  lemma DigitsAreDigits(s: Text)
    ensures AllDigits(s) <==> OnlyDigits(s)
  {
  }

  lemma BreaksAt(text: Text, p: nat)
    requires p <= |text|
    ensures Breaks(text[p..]) <==> (p < |text| ==> !IsDigit(text[p]))
  {
  }

  /** When an exponent may be missing. */
  lemma NoDigitsAllowed(text: Text, q: nat, o: Options)
    requires q <= |text| && ExponentAt(text, q, o).Part? && |ExponentAt(text, q, o).digits| == 0
    ensures var rest := text[q..];
            o.fixed || (!o.scientific && !(o.fortran && |rest| > 0 && (rest[0] == 43 || rest[0] == 45 || rest[0] == 100 || rest[0] == 68)))
  {
    hide DigitsEnd;
  }

  lemma NothingBegun(text: Text, q: nat, o: Options)
    requires q <= |text| && ExponentAt(text, q, o).Part? && |ExponentAt(text, q, o).digits| == 0
    ensures !BeginsExponent(text[q..], o)
  {
    hide ExponentAt, IsMark, LeadsToDigit;
    if BeginsExponent(text[q..], o) {
      var mark: Text, negative: bool :| IsMark(mark, negative, o) && LeadsToDigit(text[q..], mark);
      BegunIsFound(text, q, o, mark, negative);
    }
  }

  /** Where an exponent begins, one is found. */
  lemma BegunIsFound(text: Text, q: nat, o: Options, mark: Text, negative: bool)
    requires q <= |text| && IsMark(mark, negative, o) && LeadsToDigit(text[q..], mark)
    ensures ExponentAt(text, q, o).Part? && |ExponentAt(text, q, o).digits| > 0
  {
    hide DigitsEnd;
    var b := q + |mark|;
    var e := DigitsEnd(text, b);
    var t := text[q..];
    assert t[..|mark|] == mark && t[|mark|] == text[b];
    RunEndsAt(text, b);
    RunIsDigits(text, b);
    RunIsNonempty(text, b);
    assert text[q..] == mark + text[b..e] + text[e..];
    ExponentIsFound(text, q, o, mark, negative, text[b..e], text[e..]);
  }

  lemma RunIsNonempty(text: Text, from: nat)
    requires from < |text| && IsDigit(text[from])
    ensures from < DigitsEnd(text, from)
  {
  }

  /** A text is accepted exactly if it begins with a literal, and the pieces are those. */
  lemma SpelledExactly(text: Text, o: Options, w: Pieces)
    requires o.Valid()
    ensures Spells(text, o, w) <==> IsLiteral(text, o) && w == PiecesOf(text, o)
  {
    hide Spells;
    if IsLiteral(text, o) {
      LiteralIsSpelled(text, o);
    }
    if Spells(text, o, w) {
      SpelledIsLiteral(text, o, w);
    }
  }

  lemma LiteralIsSpelled(text: Text, o: Options)
    requires o.Valid() && IsLiteral(text, o)
    ensures Spells(text, o, PiecesOf(text, o))
  {
    hide DigitsEnd, IsTail, ExponentAt, FractionEnd, FractionStart, Integer, Fraction, HasPoint, OnlyDigits, Breaks;
    FrontIsThere(text, o);
    PartIsTail(text, FractionEnd(text, o), o);
  }

  lemma SpelledIsLiteral(text: Text, o: Options, w: Pieces)
    requires o.Valid() && Spells(text, o, w)
    ensures IsLiteral(text, o) && w == PiecesOf(text, o)
  {
    hide DigitsEnd, ExponentAt, FractionEnd, FractionStart, IsMark, BeginsExponent, Integer, Fraction, HasPoint, SignIsFollowed,
         HasDigits, Start, OnlyDigits, IsFront, StartsExponent, IsTail, Breaks;
    var tail := w.mark + w.exponent + w.rest;
    var q := FractionEnd(text, o);
    FrontIsFound(text, o, w.minus, w.integer, w.point, w.fraction, tail);
    DigitsSuffice(text, o);
    SignInFront(text);
    TailIsFound(text, q, o, w);
  }

  lemma TailIsFound(text: Text, q: nat, o: Options, w: Pieces)
    requires q <= |text| && text[q..] == w.mark + w.exponent + w.rest
    requires IsTail(text[q..], o, w.mark, w.negative, w.exponent, w.rest)
    ensures ExponentAt(text, q, o) == Part(w.negative, w.exponent, |text| - |w.rest|)
    ensures q <= |text| - |w.rest| - |w.exponent| && text[q..|text| - |w.rest| - |w.exponent|] == w.mark
    ensures text[|text| - |w.rest|..] == w.rest
  {
    hide ExponentAt, IsMark, BeginsExponent, OnlyDigits, StartsExponent, Breaks;
    ThreeSlices(text, q, w.mark, w.exponent, w.rest);
    if |w.exponent| > 0 {
      ExponentIsFound(text, q, o, w.mark, w.negative, w.exponent, w.rest);
    } else {
      assert text[q..] == w.rest;
      NoExponentIsFound(text, q, o);
      NothingStarts(text, q, o);
    }
  }

  lemma SignInFront(text: Text)
    ensures Start(text) == 1 <==> |text| > 0 && text[0] == 45
  {
  }

  lemma NothingStarts(text: Text, q: nat, o: Options)
    requires q <= |text|
    ensures var rest := text[q..];
            q < |text| && !o.scientific && StartsExponent(text[q], o) ==>
              o.fortran && |rest| > 0 && (rest[0] == 43 || rest[0] == 45 || rest[0] == 100 || rest[0] == 68)
  {
  }

  lemma DigitsSuffice(text: Text, o: Options)
    requires EnoughDigitsWritten(Integer(text), HasPoint(text, o), Fraction(text, o), o.json)
    ensures |text| > 0 && SignIsFollowed(text, o) && HasDigits(text, o)
  {
    hide DigitsEnd;
    PartsAreDigits(text, o);
    if |Integer(text)| > 0 {
      assert IsDigit(Integer(text)[0]);
    }
  }

  // ---------- what the scan is, in terms of the pieces

  /** All digits of the exponent but the last stay below 2^28. */
  ghost predicate ExponentIsShort(exponent: Text) {
    |exponent| == 0 || DecVal(exponent[..|exponent| - 1]) < 268435456
  }

  /** Sign, spans and end are those of the pieces. The mantissa is the number that all digits spell if
      that is below 10^19, and otherwise its first nineteen digits; the exponent is the written one, or
      the part of it that is read, moved by the digits that were cut. */
  ghost predicate ReadsPieces(r: Scan, w: Pieces, end: int) {
    && r.Accepted? && r.negative == w.minus && r.integer == w.integer && r.fraction == w.fraction && r.lastMatch == end
    && var v := DecVal(w.integer + w.fraction);
    && (r.tooManyDigits <==> v >= 10_000_000_000_000_000_000)
    && (if r.tooManyDigits then 1_000_000_000_000_000_000 <= r.mantissa < 10_000_000_000_000_000_000 else r.mantissa == v)
    && (ExponentIsShort(w.exponent) ==> CutIs(r, v, r.exponent - w.Scale()))
    && exists n: nat :: IsReadPart(w.exponent, n) && CutIs(r, v, r.exponent - w.(exponent := w.exponent[..n]).Scale())
  }

  /** So many digits of v are missing in the mantissa. */
  ghost predicate CutIs(r: Scan, v: int, cut: int)
    requires r.Accepted?
  {
    if r.tooManyDigits then 0 < cut && r.mantissa * Pow(10, cut) <= v < (r.mantissa + 1) * Pow(10, cut)
    else cut == 0
  }

  lemma ScanReadsPieces(r: Scan, text: Text, o: Options, w: Pieces)
    requires o.Valid() && IsScanOf(r, text, o) && Spells(text, o, w)
    ensures ReadsPieces(r, w, |text| - |w.rest|)
  {
    hide DecVal, Clamped, LeadingZeros, DigitsEnd, ExponentAt, Spells, Pow, SignIsFollowed, HasDigits, FractionEnd, AllDigits;
    SpelledExactly(text, o, w);
    var s := LiteralDigits(text, o);
    var part := ExponentAt(text, FractionEnd(text, o), o);
    PartLies(text, FractionEnd(text, o), o);
    ExponentPartIsDigits(text, FractionEnd(text, o), o);
    ClampedIsExact(part.digits);
    PartsAreDigits(text, o);
    var dropped := r.exponent - (ClampedExponent(part) - |r.fraction|);
    CutBrackets(s, dropped);
    if SignificantDigits(s) > MAX_DIGITS {
      ManyDigits(s);
    } else {
      FewDigits(s);
    }
    var n := ClampedIsPrefix(part.digits);
    assert CutIs(r, DecVal(s), r.exponent - w.(exponent := w.exponent[..n]).Scale());
  }

  // ---------- the scanner

  method ScanExponentDigits(text: Text, b: nat) returns (p: nat, expNumber: int)
    requires b < |text| && IsDigit(text[b])
    ensures b < p == DigitsEnd(text, b) && expNumber == Clamped(text[b..p])
  {
    hide DigitsEnd, Clamped;
    p, expNumber := b, 0;
    ClampedNone(text[b..p]);
    while p != |text| && IsDigit(text[p])
      invariant b <= p <= |text| && AllDigits(text[b..p]) && expNumber == Clamped(text[b..p])
      decreases |text| - p
    {
      ClampedPush(text[b..p], text[p]);
      OneMoreDigit(text[b..p], text[p]);
      assert text[b..p] + [text[p]] == text[b..p + 1];
      if expNumber < EXPONENT_LIMIT {
        expNumber := 10 * expNumber + DigitOf(text[p]);
      }
      p := p + 1;
    }
    DigitsEndIsMaximal(text, b, p);
  }

  lemma ClampedNone(s: Text)
    requires |s| == 0
    ensures Clamped(s) == 0
  {
  }

  /** The exponent part at q. */
  method ScanExponent(text: Text, q: nat, o: Options) returns (ok: bool, p: nat, expNumber: int)
    requires q <= |text|
    ensures ok == !ExponentAt(text, q, o).Malformed?
    ensures ok ==> p == ExponentAt(text, q, o).end && expNumber == ClampedExponent(ExponentAt(text, q, o))
  {
    hide DigitsEnd, Clamped;
    p, expNumber := q, 0;
    ClampedNone([]);
    if p != |text| && StartsExponent(text[p], o) {
      if IsExponentLetter(text[p]) {
        p := p + 1;
      }
      var negExp := false;
      if p != |text| && text[p] == MINUS {
        negExp := true;
        p := p + 1;
      } else if p != |text| && text[p] == PLUS {
        p := p + 1;
      }
      if p == |text| || !IsDigit(text[p]) {
        DigitsEndIsMaximal(text, p, p);
        if !o.fixed {
          return false, p, 0;
        }
        p := q;  // the letter is not part of the number
      } else {
        p, expNumber := ScanExponentDigits(text, p);
        if negExp {
          expNumber := -expNumber;
        }
      }
    } else if o.scientific && !o.fixed {
      return false, p, 0;
    }
    return true, p, expNumber;
  }

  /** How many digits of the literal come before position p. */
  ghost function Passed(text: Text, o: Options, p: int): int {
    if p <= IntegerEnd(text) then p - Start(text)
    else if p <= FractionEnd(text, o) then |Integer(text)| + p - FractionStart(text, o)
    else |LiteralDigits(text, o)|
  }

  lemma DigitAtPosition(text: Text, o: Options, p: nat)
    requires o.Valid() && Start(text) <= p < FractionEnd(text, o) && text[p] != o.decimalPoint
    ensures 0 <= Passed(text, o, p) < |LiteralDigits(text, o)| && Passed(text, o, p + 1) == Passed(text, o, p) + 1
    ensures LiteralDigits(text, o)[Passed(text, o, p)] == text[p]
  {
    hide DigitsEnd;
  }

  /** A run of digits does not hold the decimal point, and what follows it is not a digit. */
  lemma PointOnlyBetween(text: Text, o: Options, p: nat)
    requires o.Valid() && Start(text) <= p < |text| && p <= FractionEnd(text, o)
    requires text[p] == o.decimalPoint && p != FractionEnd(text, o)
    ensures p == IntegerEnd(text) && Passed(text, o, p + 1) == Passed(text, o, p)
  {
    hide DigitsEnd;
    if p < IntegerEnd(text) {
      DigitInRun(text, Start(text), p);
    } else if p > IntegerEnd(text) {
      DigitInRun(text, IntegerEnd(text) + 1, p);
    }
  }

  lemma DigitInRun(text: Text, from: nat, p: nat)
    requires from <= p < |text| && p < DigitsEnd(text, from)
    ensures IsDigit(text[p])
  {
    RunIsDigits(text, from);
    assert text[from..DigitsEnd(text, from)][p - from] == text[p];
  }

  /** The leading zeros are skipped, the point among them, and subtracted from the count. What the
      loop passes after the last digit lowers the count further, but then no digit is significant. */
  method SkipLeadingZeros(text: Text, o: Options, digitCount: int) returns (count: int)
    requires o.Valid() && digitCount == |LiteralDigits(text, o)|
    ensures count > MAX_DIGITS <==> SignificantDigits(LiteralDigits(text, o)) > MAX_DIGITS
  {
    hide DigitsEnd, Integer, Fraction, HasPoint, FractionStart, IntegerEnd;
    count := digitCount;
    var start: nat := Start(text);
    ghost var s, end := LiteralDigits(text, o), FractionEnd(text, o);
    PassedAtEnds(text, o);
    while start != |text| && (text[start] == ZERO || text[start] == o.decimalPoint)
      invariant Start(text) <= start <= |text|
      invariant 0 <= Passed(text, o, start) <= |s| && forall i :: 0 <= i < Passed(text, o, start) ==> s[i] == ZERO
      invariant start <= end ==> count == |s| - Passed(text, o, start)
      invariant start > end ==> count <= 0 && Passed(text, o, start) == |s|
      decreases |text| - start
    {
      if start < end {
        if text[start] == o.decimalPoint {
          PointOnlyBetween(text, o, start);
        } else {
          DigitAtPosition(text, o, start);
        }
      }
      if text[start] == ZERO {
        count := count - 1;
      }
      start := start + 1;
      PassedBeyond(text, o, start);
    }
    if start < end {
      DigitAtPosition(text, o, start);
    }
  }

  lemma PassedAtEnds(text: Text, o: Options)
    ensures Passed(text, o, Start(text)) == 0 && Start(text) <= FractionEnd(text, o)
    ensures Passed(text, o, FractionEnd(text, o)) == |LiteralDigits(text, o)|
  {
    hide DigitsEnd;
  }

  lemma PassedBeyond(text: Text, o: Options, p: nat)
    ensures p > FractionEnd(text, o) ==> Passed(text, o, p) == |LiteralDigits(text, o)|
  {
    hide DigitsEnd;
  }

  /** Takes digits of s until the word has nineteen, or s ends. */
  method TakeDigits(ghost before: Text, s: Text, initial: word) returns (n: nat, i: word)
    requires AllDigits(s) && initial == DecVal(before) && initial < 10 * NINETEEN_DIGITS
    ensures n <= |s| && i == DecVal(before + s[..n]) && i < 10 * NINETEEN_DIGITS
    ensures i < NINETEEN_DIGITS ==> n == |s|
    ensures initial >= NINETEEN_DIGITS ==> n == 0
  {
    hide DecVal;
    n, i := 0, initial;
    assert before + s[..0] == before;
    while i < NINETEEN_DIGITS && n != |s|
      invariant n <= |s| && i == DecVal(before + s[..n]) && i < 10 * NINETEEN_DIGITS
      invariant initial >= NINETEEN_DIGITS ==> n == 0
      decreases |s| - n
    {
      DecValPush(before + s[..n], s[n]);
      assert before + s[..n] + [s[n]] == before + s[..n + 1];
      i := i * 10 + DigitOf(s[n]);
      n := n + 1;
    }
  }

  /** The second pass over a literal with too many digits: the first nineteen of them, and how many
      follow within the integer part or how far the cut lies inside the fraction. */
  method Truncate(integer: Text, fraction: Text) returns (i: word, exponent: int)
    requires AllDigits(integer) && AllDigits(fraction)
    requires SignificantDigits(integer + fraction) > MAX_DIGITS
    ensures Keeps(integer + fraction, i, exponent + |fraction|, true)
  {
    hide DecVal, LeadingZeros;
    ghost var s := integer + fraction;
    AllDigitsConcat(integer, fraction);
    ManyDigits(s);
    var n: int;
    DecValOfNone([]);
    n, i := TakeDigits([], integer, 0);
    assert [] + integer[..n] == s[..n];
    if i >= NINETEEN_DIGITS {
      exponent := |integer| - n;
    } else {
      n, i := TakeDigits(integer, fraction, i);
      assert integer + fraction[..n] == s[..|integer| + n];
      exponent := -n;
    }
    assert s[..|s|] == s;
  }

  /** The digits after the point, if there is one. */
  method ScanFraction(text: Text, o: Options, endOfInteger: nat, soFar: word)
    returns (p: nat, i: word, hasPoint: bool, fraction: Text)
    requires endOfInteger == IntegerEnd(text) && soFar == Accumulated(0, Integer(text))
    ensures p == FractionEnd(text, o) && i == Accumulated(0, LiteralDigits(text, o))
    ensures hasPoint == HasPoint(text, o) && fraction == Fraction(text, o)
  {
    hide DigitsEnd, Accumulated, DecVal, AllDigits;
    p, i, fraction := endOfInteger, soFar, [];
    hasPoint := p != |text| && text[p] == o.decimalPoint;
    if hasPoint {
      p := p + 1;
      p, i := LoopParseIfEightDigits(text, p, i);
      p, i := LoopParseDigits(text, endOfInteger + 1, p, soFar, i);
      fraction := text[endOfInteger + 1..p];
      AccumulatedConcat(0, Integer(text), fraction);
    } else {
      assert LiteralDigits(text, o) == Integer(text);
    }
  }

  /** parse_number_string */
  method ParseNumber(text: Text, o: Options) returns (r: Scan)
    requires |text| > 0 && o.Valid()
    ensures IsScanOf(r, text, o)
    ensures r.Accepted? <==> exists w :: Spells(text, o, w)
    ensures forall w :: Spells(text, o, w) ==> ReadsPieces(r, w, |text| - |w.rest|)
  {
    r := ScanNumber(text, o);
    forall w | Spells(text, o, w)
      ensures ReadsPieces(r, w, |text| - |w.rest|)
    {
      ScanReadsPieces(r, text, o, w);
    }
    ScanIsSpelled(r, text, o);
  }

  lemma ScanIsSpelled(r: Scan, text: Text, o: Options)
    requires o.Valid() && IsScanOf(r, text, o)
    ensures r.Accepted? <==> exists w :: Spells(text, o, w)
  {
    hide Spells, IsLiteral, ReadsPieces;
    if IsLiteral(text, o) {
      SpelledExactly(text, o, PiecesOf(text, o));
    }
    if exists w :: Spells(text, o, w) {
      var w :| Spells(text, o, w);
      SpelledExactly(text, o, w);
    }
  }

  method ScanNumber(text: Text, o: Options) returns (r: Scan)
    requires |text| > 0 && o.Valid()
    ensures IsScanOf(r, text, o)
  {
    hide DigitsEnd, ExponentAt, Accumulated, DecVal, Clamped, AllDigits, LeadingZeros, FractionStart, FractionEnd, Fraction;
    var p := 0;
    if text[0] == MINUS {
      p := 1;
      if p == |text| {
        return Rejected;
      }
      if o.json {
        if !IsDigit(text[p]) {
          return Rejected;
        }
      } else if !IsDigit(text[p]) && text[p] != o.decimalPoint {
        return Rejected;
      }
    }
    var startDigits := p;
    var i: word := 0;
    AccumulatedNone(0, text[p..p]);
    p, i := LoopParseDigits(text, p, p, 0, i);
    var integer := text[startDigits..p];
    if o.json && (|integer| == 0 || (integer[0] == ZERO && |integer| > 1)) {
      return Rejected;
    }
    var hasPoint, fraction;
    p, i, hasPoint, fraction := ScanFraction(text, o, p, i);
    if o.json {
      if hasPoint && |fraction| == 0 {
        return Rejected;
      }
    } else if |integer| + |fraction| == 0 {
      return Rejected;
    }
    var ok, expNumber;
    ok, p, expNumber := ScanExponent(text, p, o);
    if !ok {
      return Rejected;
    }
    var exponent := expNumber - |fraction|;
    var tooMany := false;
    if |integer| + |fraction| > MAX_DIGITS {
      var count := SkipLeadingZeros(text, o, |integer| + |fraction|);
      tooMany := count > MAX_DIGITS;
    }
    PartsAreDigits(text, o);
    if tooMany {
      i, exponent := Truncate(integer, fraction);
      exponent := exponent + expNumber;
    } else {
      FewDigits(integer + fraction);
    }
    return Accepted(text[0] == MINUS, i, exponent, p, tooMany, integer, fraction);
  }
}
