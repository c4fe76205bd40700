/** What the decimal parser does with big integers: shifts, powers of 5 and 10, the top 64 bits,
    and comparison. */
module BigIntOps {
  import opened Powers
  import opened Bits
  import opened BigInt

  // ---------- shifting

  lemma SplitWord(n: nat)
    requires n <= 64
    ensures 0 < Pow2(n) && 0 < Pow2(64 - n) && Pow2(n) * Pow2(64 - n) == TWO64
  {
    PowPositive(2, n);
    PowPositive(2, 64 - n);
    PowAdd(2, n, 64 - n);
    TwoToThe64();
  }

  /** The bits that a left shift by n pushes out of a limb, and those that stay. */
  lemma ShiftSplits(x: limb, n: nat)
    requires n <= 64
    ensures 0 < Pow2(n) && 0 < Pow2(64 - n)
    ensures Shr(x, 64 - n) < Pow2(n)
    ensures x * Pow2(n) == Shl(x, n) + Shr(x, 64 - n) * TWO64
    ensures Shl(x, n) == x % Pow2(64 - n) * Pow2(n) <= TWO64 - Pow2(n)
  {
    hide Pow;
    SplitWord(n);
    var p, q := Pow2(n), Pow2(64 - n);
    DivModSplit(x, q);
    var d, r := x / q, x % q;
    calc {
      x * p;
    ==
      (d * q + r) * p;
    == { MulDistributes(p, d * q, r); MulAssociates(d, q, p); assert q * p == p * q; }
      d * TWO64 + r * p;
    }
    MulMonotonic(p, 0, r);
    MulMonotonic(p, r, q - 1);
    MulDistributes(p, q, -1);
    DivModUnique(x * p, TWO64, d, r * p);
    MulOrder(q, d, p);
  }

  lemma ShiftedLimb(xi: limb, prev: limb, n: nat)
    requires n <= 64
    ensures var z := Or(Shl(xi, n), Shr(prev, 64 - n));
            && z < TWO64
            && xi * Pow2(n) + Shr(prev, 64 - n) == z + Shr(xi, 64 - n) * TWO64
  {
    ShiftSplits(xi, n);
    ShiftSplits(prev, n);
    OrDisjoint(n, xi % Pow2(64 - n), Shr(prev, 64 - n));
  }

  method ShlBits(vec: StackVec, n: nat) returns (ok: bool)
    requires vec.Valid() && 0 < n < LIMB_BITS
    modifies vec, vec.data
    ensures vec.Valid()
    ensures ok <==> Pow2(n) * old(vec.Val()) < Limit()
    ensures ok ==> vec.Val() == Pow2(n) * old(vec.Val())
    ensures ok && Normalized(old(vec.Limbs())) ==> Normalized(vec.Limbs())
  {
    hide Limit, Base, Value, Shl, Shr, Or;
    ghost var s, y := vec.Limbs(), Pow2(n);
    SplitWord(n);
    PowStrictlyMonotonic(2, n, 64);
    TwoToThe64();
    ValueOfEmpty(s[..0]);
    ValueOfEmpty(vec.data[..0]);
    var prev: limb := 0;
    assert Shr(prev, 64 - n) == 0 by {
      ShrOfZero(64 - n);
    }
    for index := 0 to vec.length
      invariant vec.Valid() && vec.length == |s| && vec.data[index..vec.length] == s[index..]
      invariant Value(vec.data[..index]) + Shr(prev, 64 - n) * Base(index) == y * Value(s[..index])
    {
      ghost var before, c := vec.data[..], Shr(prev, 64 - n);
      var xi := vec.data[index];
      ShiftedLimb(xi, prev, n);
      assert xi == s[index];
      vec.data[index] := Or(Shl(xi, n), Shr(prev, 64 - n));
      prev := xi;
      assert vec.data[index + 1..vec.length] == s[index..][1..];
      ScaledLimbStep(before, vec.data[..], s, y, index, c, Shr(xi, 64 - n));
    }
    ghost var r := vec.data[..vec.length];
    assert s[..vec.length] == s;
    ShiftSplits(prev, n);
    var carry := Shr(prev, 64 - n);
    CarryDecides(r, carry);
    ProductIsNormalized(s, y, r, carry);
    if carry != 0 {
      ValueOfPush(r, carry);
      ok := vec.TryPush(carry);
      return;
    }
    return true;
  }

  lemma ShrOfZero(k: nat)
    ensures Shr(0, k) == 0
  {
    PowPositive(2, k);
    DivModUnique(0, Pow2(k), 0, 0);
  }

  lemma ScaledLimbStep(before: seq<limb>, after: seq<limb>, s: seq<limb>, y: int, i: nat, c: int, c': int)
    requires i < |s| <= |before| && |after| == |before| && after == before[i := after[i]]
    requires Value(before[..i]) + c * Base(i) == y * Value(s[..i])
    requires s[i] * y + c == after[i] + c' * TWO64
    ensures Value(after[..i + 1]) + c' * Base(i + 1) == y * Value(s[..i + 1])
  {
    hide Base, Value;
    MulStep(Value(before[..i]), Value(s[..i]), c, Base(i), y, s[i], after[i], c');
    BaseStep(i);
    ValueOfPrefix(s, i);
    ValueOfPrefix(after, i);
    assert after[..i] == before[..i];
  }

  method ShlLimbs(vec: StackVec, n: nat) returns (ok: bool)
    requires vec.Valid() && 0 < n
    modifies vec, vec.data
    ensures vec.Valid()
    ensures ok <==> n + old(vec.length) <= LIMBS
    ensures ok ==> vec.Val() == old(vec.Val()) * Base(n)
    ensures ok && Normalized(old(vec.Limbs())) ==> Normalized(vec.Limbs())
  {
    hide Base, Value, Limit;
    ghost var s := vec.Limbs();
    if n + vec.length > LIMBS {
      return false;
    }
    ghost var zeros: seq<limb> := seq(n, _ => 0);
    ValueOfZeros(n);
    ValueOfConcat(zeros, s);
    if vec.length != 0 {
      MoveUp(vec, n);
      assert vec.Limbs() == zeros + s;
    } else {
      ValueOfEmpty(s);
    }
    return true;
  }

  /** The limbs move n places up and zeros fill the places below. */
  method MoveUp(vec: StackVec, n: nat)
    requires vec.Valid() && n + vec.length <= LIMBS
    modifies vec, vec.data
    ensures vec.Valid() && vec.Limbs() == seq(n, _ => 0) + old(vec.Limbs())
  {
    CopyUp(vec.data, vec.length, n);
    FillZeros(vec.data, n);
    ghost var s := old(vec.Limbs());
    assert vec.data[n..][..vec.length] == vec.data[n..n + vec.length];
    vec.length := n + vec.length;
    assert vec.data[..vec.length] == vec.data[..n] + vec.data[n..vec.length];
  }

  method CopyUp(a: array<limb>, count: nat, n: nat)
    requires n + count <= a.Length
    modifies a
    ensures a[n..][..count] == old(a[..count])
  {
    forall i | 0 <= i < count {
      a[n + i] := a[i];
    }
  }

  method FillZeros(a: array<limb>, n: nat)
    requires n <= a.Length
    modifies a
    ensures a[..n] == seq(n, _ => 0) && a[n..] == old(a[n..])
  {
    forall i | 0 <= i < n {
      a[i] := 0;
    }
  }

  lemma LimitIsPositive()
    ensures 0 < Limit()
  {
    BaseMonotonic(0, LIMBS);
    BaseZero();
  }

  /** A left shift by any number of bits. Zero has no limbs to move, and still the whole limbs of the
      shift must be there. */
  method ShiftLeft(vec: StackVec, n: nat) returns (ok: bool)
    requires vec.Valid() && Normalized(vec.Limbs())
    modifies vec, vec.data
    ensures vec.Valid()
    ensures ok ==> vec.Val() == old(vec.Val()) * Pow2(n) && Normalized(vec.Limbs())
    ensures old(vec.Val()) != 0 ==> (ok <==> old(vec.Val()) * Pow2(n) < Limit())
    ensures old(vec.Val()) == 0 ==> (ok <==> n / LIMB_BITS <= LIMBS)
  {
    hide Limit, Base, Value;
    ghost var v := vec.Val();
    ValueBound(vec.Limbs());
    var rem, div := n % LIMB_BITS, n / LIMB_BITS;
    ShiftFactors(n);
    ghost var mid := v;
    LimitIsPositive();
    if rem != 0 {
      PowPositive(2, rem);
      BaseMonotonic(0, div);
      BaseZero();
      MulMonotonic(Pow2(rem) * v, 1, Base(div));
      MulMonotonic(v, 1, Pow2(rem));
      ok := ShlBits(vec, rem);
      if !ok {
        return false;
      }
      mid := Pow2(rem) * v;
    }
    assert vec.Val() == mid && mid * Base(div) == v * Pow2(n);
    if div != 0 {
      TooManyLimbs(vec.Limbs(), div);
      ZeroHasNoLimbs(vec.Limbs());
      ok := ShlLimbs(vec, div);
      if ok {
        FitsByLength(vec.Limbs());
      }
      return;
    }
    FitsByLength(vec.Limbs());
    BaseZero();
    return true;
  }

  lemma ShiftFactors(n: nat)
    ensures forall v: int :: Pow2(n % 64) * v * Base(n / 64) == v * Pow2(n)
    ensures n % 64 == 0 ==> forall v: int :: v * Base(n / 64) == v * Pow2(n)
  {
    var r, d := n % 64, n / 64;
    assert n == r + 64 * d;
    PowAdd(2, r, 64 * d);
    PowOfPow(2, 64, d);
    TwoToThe64();
    forall v: int
      ensures Pow2(r) * v * Base(d) == v * Pow2(n)
    {
      MulAssociates(v, Pow2(r), Base(d));
    }
  }

  lemma ZeroHasNoLimbs(s: seq<limb>)
    requires Normalized(s)
    ensures Value(s) == 0 ==> |s| == 0
  {
    if |s| != 0 {
      TopLimb(s);
      BaseMonotonic(0, |s| - 1);
      BaseZero();
    }
  }

  /** Moving a nonzero number by more limbs than there is room for makes it too large. */
  lemma TooManyLimbs(s: seq<limb>, n: nat)
    requires Normalized(s) && |s| <= LIMBS
    ensures Value(s) != 0 && n + |s| > LIMBS ==> Limit() <= Value(s) * Base(n)
  {
    hide Base, Value;
    if |s| == 0 {
      ValueOfEmpty(s);
    } else if n + |s| > LIMBS {
      TopLimb(s);
      BaseMonotonic(LIMBS, |s| - 1 + n);
      BaseAdd(|s| - 1, n);
      MulMonotonic(Base(n), Base(|s| - 1), Value(s));
    }
  }

  // ---------- powers of 5 and 10

  const LARGE_STEP: nat := 135
  const SMALL_STEP: nat := 27
  const MAX_NATIVE: limb := 7450580596923828125

  const SMALL_POWER_OF_5: seq<limb> := [
    1, 5, 25, 125, 625, 3125, 15625, 78125, 390625,
    1953125, 9765625, 48828125, 244140625, 1220703125,
    6103515625, 30517578125, 152587890625, 762939453125,
    3814697265625, 19073486328125, 95367431640625, 476837158203125,
    2384185791015625, 11920928955078125, 59604644775390625,
    298023223876953125, 1490116119384765625, 7450580596923828125]

  const LARGE_POWER_OF_5: seq<limb> := [
    1414648277510068013, 9180637584431281687, 4539964771860779200,
    10482974169319127550, 198276706040285095]

  lemma {:induction false} SmallPowers(i: nat)
    requires i <= SMALL_STEP
    ensures SMALL_POWER_OF_5[i] == Pow(5, i)
  {
    if i != 0 {
      SmallPowers(i - 1);
      assert SMALL_POWER_OF_5[i] == 5 * SMALL_POWER_OF_5[i - 1];
    }
  }

  /** The five limbs of the table are 5^135. */
  lemma LargePower()
    ensures Value(LARGE_POWER_OF_5) == Pow(5, LARGE_STEP) && Normalized(LARGE_POWER_OF_5)
  {
    SmallPowers(27);
    PowAdd(5, 27, 27);
    PowAdd(5, 54, 54);
    PowAdd(5, 108, 27);
    var l := LARGE_POWER_OF_5;
    BaseZero();
    BaseStep(0);
    BaseStep(1);
    BaseStep(2);
    BaseStep(3);
    ValueOfEmpty(l[..0]);
    assert l[..5] == l;
    ValueOfPrefix(l, 0);
    ValueOfPrefix(l, 1);
    ValueOfPrefix(l, 2);
    ValueOfPrefix(l, 3);
    ValueOfPrefix(l, 4);
  }

  /** Multiplies by 5^exp: by 5^135 while that is possible, then by 5^27, then by the rest. */
  method MulPow5(vec: StackVec, exp: nat) returns (ok: bool)
    requires vec.Valid() && Normalized(vec.Limbs())
    modifies vec, vec.data
    ensures vec.Valid()
    ensures ok <==> old(vec.Val()) * Pow(5, exp) < Limit()
    ensures ok ==> vec.Val() == old(vec.Val()) * Pow(5, exp) && Normalized(vec.Limbs())
  {
    hide Limit, Base, Value, Pow;
    LargePower();
    ghost var goal := vec.Val() * Pow(5, exp);
    var e: nat := exp;
    while e >= LARGE_STEP
      invariant vec.Valid() && Normalized(vec.Limbs()) && vec.Val() * Pow(5, e) == goal
    {
      ValueBound(vec.Limbs());
      FactorStep(vec.Val(), LARGE_STEP, e);
      ok := vec.LargeMul(LARGE_POWER_OF_5);
      if !ok {
        return;
      }
      e := e - LARGE_STEP;
    }
    SmallPowers(SMALL_STEP);
    while e >= SMALL_STEP
      invariant vec.Valid() && Normalized(vec.Limbs()) && vec.Val() * Pow(5, e) == goal
    {
      ValueBound(vec.Limbs());
      FactorStep(vec.Val(), SMALL_STEP, e);
      ok := vec.SmallMul(MAX_NATIVE);
      if !ok {
        return;
      }
      e := e - SMALL_STEP;
    }
    ok := MulSmallPower(vec, e);
  }

  method MulSmallPower(vec: StackVec, e: nat) returns (ok: bool)
    requires vec.Valid() && Normalized(vec.Limbs()) && e < SMALL_STEP
    modifies vec, vec.data
    ensures vec.Valid()
    ensures ok <==> old(vec.Val()) * Pow(5, e) < Limit()
    ensures ok ==> vec.Val() == old(vec.Val()) * Pow(5, e) && Normalized(vec.Limbs())
  {
    hide Limit, Base, Value, Pow;
    SmallPowers(e);
    PowPositive(5, e);
    if e != 0 {
      ok := vec.SmallMul(SMALL_POWER_OF_5[e]);
      return;
    }
    PowNone(5);
    FitsByLength(vec.Limbs());
    return true;
  }

  /** Taking 5^k out of 5^e; what is already too large stays so. */
  lemma FactorStep(v: int, k: nat, e: nat)
    requires 0 <= v && k <= e
    ensures v * Pow(5, k) * Pow(5, e - k) == v * Pow(5, e) >= v * Pow(5, k)
    ensures Pow(5, k) * v == v * Pow(5, k)
  {
    hide Pow;
    PowAdd(5, k, e - k);
    PowPositive(5, k);
    PowPositive(5, e - k);
    MulAssociates(v, Pow(5, k), Pow(5, e - k));
    MulMonotonic(v, 0, Pow(5, k));
    MulMonotonic(v * Pow(5, k), 1, Pow(5, e - k));
  }

  /** Multiplies by 10^exp as by 5^exp and then by 2^exp. */
  method MulPow10(vec: StackVec, exp: nat) returns (ok: bool)
    requires vec.Valid() && Normalized(vec.Limbs())
    modifies vec, vec.data
    ensures vec.Valid()
    ensures old(vec.Val()) != 0 ==> (ok <==> old(vec.Val()) * Pow(10, exp) < Limit())
    ensures old(vec.Val()) == 0 ==> (ok <==> exp / LIMB_BITS <= LIMBS)
    ensures ok ==> vec.Val() == old(vec.Val()) * Pow(10, exp) && Normalized(vec.Limbs())
  {
    hide Limit, Base, Value, Pow;
    ghost var v := vec.Val();
    ValueBound(vec.Limbs());
    TenSplits(v, exp);
    LimitIsPositive();
    ok := MulPow5(vec, exp);
    if ok {
      ok := ShiftLeft(vec, exp);
    }
  }

  lemma TenSplits(v: int, exp: nat)
    requires 0 <= v
    ensures v * Pow(5, exp) * Pow2(exp) == v * Pow(10, exp) >= v * Pow(5, exp) >= v
  {
    hide Pow;
    PowOfProduct(5, 2, exp);
    PowPositive(2, exp);
    PowPositive(5, exp);
    MulAssociates(v, Pow(5, exp), Pow2(exp));
    MulMonotonic(v, 1, Pow(5, exp));
    MulMonotonic(v * Pow(5, exp), 1, Pow2(exp));
  }

  // ---------- the top 64 bits

  /** How far a nonzero word can be shifted left before its top bit is set. */
  function LeadingZeroes(x: nat): nat
    requires 0 < x < TWO64
    decreases TWO64 - x
  {
    if x >= TWO64 / 2 then 0 else 1 + LeadingZeroes(2 * x)
  }

  lemma {:induction false} LeadingZeroesShift(x: nat)
    requires 0 < x < TWO64
    ensures TWO64 / 2 <= x * Pow2(LeadingZeroes(x)) < TWO64
    ensures LeadingZeroes(x) < 64
    decreases TWO64 - x
  {
    var n := LeadingZeroes(x);
    if x < TWO64 / 2 {
      LeadingZeroesShift(2 * x);
      MulAssociates(x, 2, Pow2(n - 1));
    }
    if 64 <= n {
      TwoToThe64();
      PowMonotonic(2, 64, n);
      MulMonotonic(Pow2(n), 1, x);
    }
  }

  function BitLength(s: seq<limb>): nat
    requires Normalized(s)
  {
    if |s| == 0 then 0 else
      LeadingZeroesShift(s[|s| - 1]);
      LIMB_BITS * |s| - LeadingZeroes(s[|s| - 1])
  }

  /** Whether a limb below the top ones is nonzero. */
  method NonzeroFrom(vec: StackVec, index: nat) returns (found: bool)
    requires vec.Valid() && index <= vec.length
    ensures found <==> Value(vec.data[..vec.length - index]) != 0
  {
    hide Base;
    var i := index;
    while i < vec.length
      invariant index <= i <= vec.length
      invariant Value(vec.data[..vec.length - index]) == Value(vec.data[..vec.length - i])
    {
      ghost var s, top := vec.data[..vec.length - i], vec.length - i - 1;
      assert s[..top] == vec.data[..top];
      if vec.data[vec.length - i - 1] != 0 {
        TopLimb(s);
        BaseMonotonic(0, top);
        return true;
      }
      i := i + 1;
    }
    return false;
  }

  /** Top says that hi is the number cut to its first 64 bits, scaled to a 64-bit word, and rest what
      was cut off. */
  ghost predicate IsTop(v: int, length: nat, hi: int, rest: int) {
    v * TWO64 == hi * Pow2(length) + rest && 0 <= rest < Pow2(length) && TWO64 / 2 <= hi < TWO64
  }

  lemma TopOfOne(r0: limb)
    requires r0 != 0
    ensures var z := LeadingZeroes(r0); z < 64 && Shl(r0, z) == r0 * Pow2(z) && IsTop(r0, 64 - z, Shl(r0, z), 0)
  {
    LeadingZeroesShift(r0);
    var z := LeadingZeroes(r0);
    DivModUnique(r0 * Pow2(z), TWO64, 0, r0 * Pow2(z));
    SplitWord(z);
    MulAssociates(r0, Pow2(z), Pow2(64 - z));
  }

  lemma TopOfTwo(low: int, r1: limb, r0: limb, k: nat)
    requires r0 != 0 && 0 <= low < Base(k)
    ensures var z := LeadingZeroes(r0);
            && z < 64
            && var hi := Or(Shl(r0, z), Shr(r1, 64 - z));
               var rest := (Shl(r1, z) * Base(k) + low * Pow2(z)) * Pow2(64 - z);
            && IsTop(low + r1 * Base(k) + r0 * Base(k + 1), 64 * (k + 2) - z, hi, rest)
            && (rest != 0 <==> Shl(r1, z) != 0 || low != 0)
  {
    hide Shl, Shr, Or, LeadingZeroes, Base;
    LeadingZeroesShift(r0);
    var z := LeadingZeroes(r0);
    var p, q, b := Pow2(z), Pow2(64 - z), Base(k);
    TopOfOne(r0);
    ShiftedLimb(r0, r1, z);
    ShiftSplits(r0, z);
    ShiftSplits(r1, z);
    SplitWord(z);
    BaseStep(k);
    LengthPower(k, z);
    var hi, t := Or(Shl(r0, z), Shr(r1, 64 - z)), Shl(r1, z);
    TopArithmetic(low, r1, r0, b, p, q, hi, t, Shr(r1, 64 - z));
  }

  lemma LengthPower(k: nat, z: nat)
    requires z <= 64
    ensures Pow2(64 * (k + 2) - z) == TWO64 * Base(k) * Pow2(64 - z)
  {
    PowOfPow(2, 64, k + 1);
    TwoToThe64();
    assert 64 * (k + 2) - z == 64 * (k + 1) + (64 - z);
    PowAdd(2, 64 * (k + 1), 64 - z);
    BaseStep(k);
  }

  lemma TopArithmetic(low: int, r1: int, r0: int, b: int, p: int, q: int, hi: int, t: int, c: int)
    requires 0 <= low < b && 0 < p && 0 < q && p * q == TWO64
    requires r1 * p == t + c * TWO64 && r0 * p + c == hi && 0 <= t <= TWO64 - p
    ensures var v := low + r1 * b + r0 * (TWO64 * b);
            var rest := (t * b + low * p) * q;
            && v * TWO64 == hi * (TWO64 * b * q) + rest
            && 0 <= rest < TWO64 * b * q
            && (rest != 0 <==> t != 0 || low != 0)
  {
    var u := t * b + low * p;
    MulMonotonic(b, 0, t);
    MulMonotonic(p, 0, low);
    assert u != 0 <==> t != 0 || low != 0 by {
      if t != 0 {
        MulMonotonic(b, 1, t);
      }
      if low != 0 {
        MulMonotonic(p, 1, low);
      }
    }
    RestBound(low, b, p, t);
    MulOrder(q, 0, u);
    MulOrder(q, u, TWO64 * b);
    ScaledTop(low, r1, r0, b, p, hi, t, c);
    var v := low + r1 * b + r0 * (TWO64 * b);
    MulAssociates(v, p, q);
    MulDistributes(q, hi * (TWO64 * b), u);
    MulAssociates(hi, TWO64 * b, q);
  }

  lemma RestBound(low: int, b: int, p: int, t: int)
    requires 0 <= low < b && 0 < p && 0 <= t <= TWO64 - p
    ensures t * b + low * p < TWO64 * b
  {
    MulMonotonic(b, t, TWO64 - p);
    MulOrder(p, low, b);
    MulDistributes(b, TWO64, -p);
    assert -p * b == -(p * b);
  }

  lemma ScaledTop(low: int, r1: int, r0: int, b: int, p: int, hi: int, t: int, c: int)
    requires r1 * p == t + c * TWO64 && r0 * p + c == hi
    ensures (low + r1 * b + r0 * (TWO64 * b)) * p == hi * (TWO64 * b) + (t * b + low * p)
  {
    var w := TWO64 * b;
    calc {
      (low + r1 * b + r0 * w) * p;
    == { MulDistributes(p, low + r1 * b, r0 * w); MulDistributes(p, low, r1 * b); }
      low * p + r1 * b * p + r0 * w * p;
    == { MulAssociates(r1, b, p); MulAssociates(r1, p, b); assert b * p == p * b;
         MulAssociates(r0, w, p); MulAssociates(r0, p, w); assert w * p == p * w; }
      low * p + r1 * p * b + r0 * p * w;
    == { MulDistributes(b, t, c * TWO64); MulAssociates(c, TWO64, b); }
      low * p + t * b + c * w + (hi - c) * w;
    == { MulDistributes(w, c, hi - c); }
      hi * w + (t * b + low * p);
    }
  }

  /** The top 64 bits of a nonzero big integer, and whether any bit below them is set. */
  method Hi64(vec: StackVec) returns (hi: limb, truncated: bool)
    requires vec.Valid() && Normalized(vec.Limbs())
    ensures vec.length == 0 ==> hi == 0 && !truncated
    ensures vec.length != 0 ==>
              var length := BitLength(vec.Limbs());
              var rest := vec.Val() * TWO64 - hi * Pow2(length);
              IsTop(vec.Val(), length, hi, rest) && (truncated <==> rest != 0)
  {
    hide Base, Value, Shl, Shr, Or, LeadingZeroes;
    var n := vec.length;
    if n == 0 {
      return 0, false;
    }
    var r0 := vec.data[n - 1];
    LeadingZeroesShift(r0);
    var shl := LeadingZeroes(r0);
    ghost var s := vec.Limbs();
    assert s[..n] == s && s[..n - 1] == vec.data[..n - 1];
    ValueOfPrefix(s, n - 1);
    TopOfOne(r0);
    if n == 1 {
      BaseZero();
      ValueOfEmpty(s[..0]);
      return Shl(r0, shl), false;
    }
    var r1 := vec.data[n - 2];
    ValueOfPrefix(s, n - 2);
    ghost var low := s[..n - 2];
    assert low == vec.data[..n - 2];
    ValueBound(low);
    TopOfTwo(Value(low), r1, r0, n - 2);
    var below := NonzeroFrom(vec, 2);
    hi, truncated := Uint64Hi64(r0, r1, shl);
    truncated := truncated || below;
  }

  /** The top 64 bits of two limbs; a zero shift is a case of its own because a word cannot be
      shifted by its whole width. */
  method Uint64Hi64(r0: limb, r1: limb, shl: nat) returns (hi: int, truncated: bool)
    requires shl < 64
    ensures hi == Or(Shl(r0, shl), Shr(r1, 64 - shl))
    ensures truncated <==> Shl(r1, shl) != 0
  {
    if shl == 0 {
      TwoToThe64();
      DivModUnique(r1, TWO64, 0, r1);
      DivModUnique(r0, TWO64, 0, r0);
      assert Pow2(0) == 1;
      return r0, r1 != 0;
    }
    return Or(Shl(r0, shl), Shr(r1, 64 - shl)), Shl(r1, shl) != 0;
  }

  // ---------- comparison

  lemma LongerIsLarger(s: seq<limb>, t: seq<limb>)
    requires Normalized(s) && |s| > |t|
    ensures Value(s) > Value(t)
  {
    TopLimb(s);
    ValueBound(t);
    BaseMonotonic(|t|, |s| - 1);
  }

  lemma FirstDifferenceDecides(s: seq<limb>, t: seq<limb>, i: nat)
    requires i < |s| == |t| && s[i + 1..] == t[i + 1..] && s[i] > t[i]
    ensures Value(s) > Value(t)
  {
    hide Base, Value;
    TailUnchanged(s, t, i + 1);
    ValueOfPrefix(s, i);
    ValueOfPrefix(t, i);
    ValueBound(s[..i]);
    ValueBound(t[..i]);
    MulMonotonic(Base(i), t[i] + 1, s[i]);
    MulDistributes(Base(i), t[i], 1);
  }

  /** Comparing lengths and then limbs from the top agrees with comparing values. */
  method Compare(x: StackVec, y: StackVec) returns (ord: int)
    requires x.Valid() && y.Valid() && Normalized(x.Limbs()) && Normalized(y.Limbs())
    ensures ord == if x.Val() > y.Val() then 1 else if x.Val() < y.Val() then -1 else 0
  {
    hide Base, Value;
    ghost var s, t := x.Limbs(), y.Limbs();
    if x.length > y.length {
      LongerIsLarger(s, t);
      return 1;
    } else if x.length < y.length {
      LongerIsLarger(t, s);
      return -1;
    }
    var index := x.length;
    while index > 0
      invariant 0 <= index <= x.length && s[index..] == t[index..]
    {
      var xi, yi := x.data[index - 1], y.data[index - 1];
      if xi > yi {
        FirstDifferenceDecides(s, t, index - 1);
        return 1;
      } else if xi < yi {
        FirstDifferenceDecides(t, s, index - 1);
        return -1;
      }
      assert s[index - 1..] == [xi] + s[index..] && t[index - 1..] == [yi] + t[index..];
      index := index - 1;
    }
    assert s == s[0..] && t == t[0..];
    return 0;
  }
}
