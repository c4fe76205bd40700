/** Building the big integer of all significant digits, or of as many as can matter. */
module Mantissa {
  import opened Powers
  import opened Bits
  import opened Bytes
  import opened BigInt
  import opened Digits
  import opened NumberText

  const STEP: nat := 19
  const MOST_DIGITS: nat := 769
  const EIGHT_ZEROS: int := 0x3030_3030_3030_3030

  const POWERS_OF_TEN: seq<limb> := [
    1, 10, 100, 1000, 10000, 100000, 1000000, 10000000, 100000000,
    1000000000, 10000000000, 100000000000, 1000000000000, 10000000000000,
    100000000000000, 1000000000000000, 10000000000000000, 100000000000000000,
    1000000000000000000, 10000000000000000000]

  lemma {:induction false} PowersOfTen(i: nat)
    requires i < |POWERS_OF_TEN|
    ensures POWERS_OF_TEN[i] == Pow(10, i)
  {
    if i != 0 {
      PowersOfTen(i - 1);
      assert POWERS_OF_TEN[i] == 10 * POWERS_OF_TEN[i - 1];
    }
  }

  // ---------- what the mantissa stands for

  function Significant(s: Text): Text {
    s[LeadingZeros(s)..]
  }

  predicate AllZeros(s: Text) {
    forall i :: 0 <= i < |s| ==> s[i] == ZERO
  }

  /** The significant digits t, cut after max digits; a final 1 stands for whatever was cut off. */
  ghost predicate Stands(t: Text, max: nat, value: int, digits: nat) {
    if |t| <= max then value == DecVal(t) && digits == |t|
    else if AllZeros(t[max..]) then value == DecVal(t[..max]) && digits == max
    else value == 10 * DecVal(t[..max]) + 1 && digits == max + 1
  }

  /** How many digits the big mantissa has. */
  function KeptDigits(t: Text, max: nat): nat {
    if |t| <= max then |t| else if AllZeros(t[max..]) then max else max + 1
  }

  // ---------- the buffer is large enough

  lemma BaseAsPow2(k: nat)
    ensures Base(k) == Pow2(64 * k)
  {
    TwoToThe64();
    PowOfPow(2, 64, k);
  }

  lemma TenBelowSixteen(k: nat)
    ensures Pow(10, k) <= Pow2(4 * k)
  {
    assert Pow2(4) == 16;
    PowOfPow(2, 4, k);
    PowBaseMonotonic(10, 16, k);
  }

  /** 770 digits take less than the 62 limbs. */
  lemma DigitsFit(k: nat)
    requires k <= MOST_DIGITS + 1
    ensures Pow(10, k) < Limit()
  {
    hide Pow, Base;
    TenBelowSixteen(k);
    BaseAsPow2(LIMBS);
    PowStrictlyMonotonic(2, 4 * k, 64 * LIMBS);
  }

  /** add_native ignores both results; neither operation fails while the result fits. */
  method AddNative(big: StackVec, power: limb, value: limb)
    requires big.Valid() && Normalized(big.Limbs()) && 0 < power && power * big.Val() + value < Limit()
    modifies big, big.data
    ensures big.Valid() && Normalized(big.Limbs())
    ensures big.Val() == power * old(big.Val()) + value
  {
    hide Limit, Base, Value;
    var multiplied := big.SmallMul(power);
    var added := big.SmallAdd(value);
    assert multiplied && added;
  }

  // ---------- zeros, eight bytes at a time

  lemma EightZeros(s: Text)
    requires |s| == 8
    ensures Le(s) == EIGHT_ZEROS <==> AllZeros(s)
  {
    hide Le, ToLe;
    var zeros: Text := seq(8, _ => ZERO);
    LeOfEight(zeros);
    ToLeOfLe(zeros);
    ToLeOfLe(s);
    assert AllZeros(s) <==> s == zeros;
  }

  lemma ZerosExtend(s: Text, first: nat, p: nat, q: nat)
    requires first <= p <= q <= |s| && AllZeros(s[first..p]) && AllZeros(s[p..q])
    ensures AllZeros(s[first..q])
  {
    SliceExtend(s, first, p, q);
  }

  lemma OneMoreZero(s: Text, first: nat, p: nat)
    requires first <= p < |s| && AllZeros(s[first..p]) && s[p] == ZERO
    ensures AllZeros(s[first..p + 1])
  {
    assert s[first..p + 1] == s[first..p] + [s[p]];
  }

  method SkipZeros(s: Text, first: nat) returns (p: nat)
    requires first <= |s|
    ensures first <= p <= |s| && AllZeros(s[first..p]) && (p < |s| ==> s[p] != ZERO)
  {
    hide Le;
    p := first;
    while |s| - p >= 8
      invariant first <= p <= |s| && AllZeros(s[first..p])
    {
      EightZeros(s[p..p + 8]);
      if Le(s[p..p + 8]) != EIGHT_ZEROS {
        break;
      }
      ZerosExtend(s, first, p, p + 8);
      p := p + 8;
    }
    while p != |s|
      invariant first <= p <= |s| && AllZeros(s[first..p])
      decreases |s| - p
    {
      if s[p] != ZERO {
        break;
      }
      OneMoreZero(s, first, p);
      p := p + 1;
    }
  }

  method IsTruncated(s: Text, first: nat) returns (truncated: bool)
    requires first <= |s|
    ensures truncated == !AllZeros(s[first..])
  {
    hide Le;
    var p := first;
    while |s| - p >= 8
      invariant first <= p <= |s| && AllZeros(s[first..p])
    {
      EightZeros(s[p..p + 8]);
      if Le(s[p..p + 8]) != EIGHT_ZEROS {
        NonzeroBeyond(s, first, p, p + 8);
        return true;
      }
      ZerosExtend(s, first, p, p + 8);
      p := p + 8;
    }
    while p != |s|
      invariant first <= p <= |s| && AllZeros(s[first..p])
      decreases |s| - p
    {
      if s[p] != ZERO {
        assert s[first..][p - first] != ZERO;
        return true;
      }
      OneMoreZero(s, first, p);
      p := p + 1;
    }
    assert s[first..] == s[first..|s|];
    return false;
  }

  lemma NonzeroBeyond(s: Text, first: nat, p: nat, q: nat)
    requires first <= p <= q <= |s| && !AllZeros(s[p..q])
    ensures !AllZeros(s[first..])
  {
    var i :| 0 <= i < q - p && s[p..q][i] != ZERO;
    assert s[first..][p - first + i] != ZERO;
  }

  // ---------- reading digits into the big integer

  /** Up to nineteen digits in one word, eight at a time and then one at a time; the word does not wrap. */
  method ReadChunk(s: Text, start: nat, max: nat, soFar: nat) returns (p: nat, value: limb, counter: nat, digits: nat)
    requires start <= |s| && AllDigits(s) && soFar <= max
    ensures start <= p <= |s| && counter == p - start <= STEP && digits == soFar + counter <= max
    ensures value == DecVal(s[start..p])
    ensures counter == STEP || p == |s| || digits == max
  {
    hide DecVal, AllDigits, ParseEightDigitsUnrolled, Le;
    p, value, counter, digits := start, 0, 0, soFar;
    DecValOfNone(s[start..p]);
    while |s| - p >= 8 && STEP - counter >= 8 && max - digits >= 8
      invariant start <= p <= |s| && counter == p - start <= STEP && digits == soFar + counter <= max
      invariant value == DecVal(s[start..p])
    {
      EightMore(s, start, p);
      value := (value * 100000000 + ParseEightDigitsUnrolled(Le(s[p..p + 8]))) % TWO64;
      p, counter, digits := p + 8, counter + 8, digits + 8;
    }
    while counter < STEP && p != |s| && digits < max
      invariant start <= p <= |s| && counter == p - start <= STEP && digits == soFar + counter <= max
      invariant value == DecVal(s[start..p])
      decreases |s| - p
    {
      OneMore(s, start, p);
      value := (value * 10 + DigitOf(s[p])) % TWO64;
      p, counter, digits := p + 1, counter + 1, digits + 1;
    }
  }

  lemma SliceOfDigits(s: Text, i: nat, j: nat)
    requires i <= j <= |s| && AllDigits(s)
    ensures AllDigits(s[i..j])
  {
  }

  lemma ChunkFits(s: Text, start: nat, p: nat)
    requires start <= p <= |s| && AllDigits(s) && p - start <= STEP
    ensures 0 <= DecVal(s[start..p]) < Pow(10, p - start) <= 10 * NINETEEN_DIGITS
    ensures DecVal(s[start..p]) % TWO64 == DecVal(s[start..p])
  {
    hide DecVal, Pow;
    SliceOfDigits(s, start, p);
    DecValBound(s[start..p]);
    NineteenDigits();
    PowMonotonic(10, p - start, 19);
  }

  lemma EightMore(s: Text, start: nat, p: nat)
    requires start <= p && p + 8 <= |s| && AllDigits(s) && p + 8 - start <= STEP
    ensures (DecVal(s[start..p]) * 100000000 + ParseEightDigitsUnrolled(Le(s[p..p + 8]))) % TWO64
            == DecVal(s[start..p + 8])
  {
    hide DecVal, Le, ParseEightDigitsUnrolled;
    SliceOfDigits(s, p, p + 8);
    ParseEight(s[p..p + 8]);
    DecValConcat(s[start..p], s[p..p + 8]);
    SliceExtend(s, start, p, p + 8);
    ChunkFits(s, start, p + 8);
    assert Pow(10, 4) == 10000;
    PowAdd(10, 4, 4);
  }

  lemma OneMore(s: Text, start: nat, p: nat)
    requires start <= p < |s| && AllDigits(s) && p + 1 - start <= STEP
    ensures (DecVal(s[start..p]) * 10 + DigitOf(s[p])) % TWO64 == DecVal(s[start..p + 1])
  {
    hide DecVal;
    DecValPush(s[start..p], s[p]);
    assert s[start..p] + [s[p]] == s[start..p + 1];
    ChunkFits(s, start, p + 1);
  }

  /** Appends digits of s, from start on, to the number; it stops early when max digits are taken. */
  method AddDigits(big: StackVec, s: Text, start: nat, ghost before: Text, max: nat, soFar: nat) returns (p: nat, digits: nat)
    requires big.Valid() && Normalized(big.Limbs())
    requires start <= |s| && AllDigits(s) && AllDigits(before)
    requires |before| == soFar < max <= MOST_DIGITS && big.Val() == DecVal(before)
    modifies big, big.data
    ensures big.Valid() && Normalized(big.Limbs())
    ensures start <= p <= |s| && digits == soFar + (p - start) <= max && (p == |s| || digits == max)
    ensures big.Val() == DecVal(before + s[start..p])
  {
    hide DecVal, AllDigits, Limit, Base, Value, Pow;
    p, digits := start, soFar;
    assert before + s[start..p] == before;
    while p != |s|
      invariant big.Valid() && Normalized(big.Limbs())
      invariant start <= p <= |s| && digits == soFar + (p - start) < max
      invariant big.Val() == DecVal(before + s[start..p])
      decreases |s| - p
    {
      ghost var from := p;
      var value, counter;
      p, value, counter, digits := ReadChunk(s, p, max, digits);
      ChunkAppends(before, s, start, from, p);
      PowersOfTen(counter);
      AddNative(big, POWERS_OF_TEN[counter], value);
      if digits == max {
        return;
      }
    }
  }

  lemma ChunkAppends(before: Text, s: Text, start: nat, from: nat, p: nat)
    requires start <= from <= p <= |s| && AllDigits(s) && AllDigits(before)
    requires |before| + (p - start) <= MOST_DIGITS
    ensures Pow(10, p - from) * DecVal(before + s[start..from]) + DecVal(s[from..p]) == DecVal(before + s[start..p]) < Limit()
    ensures 0 < Pow(10, p - from)
  {
    hide DecVal, Limit, Pow;
    var a, b := before + s[start..from], s[from..p];
    DecValConcat(a, b);
    assert a + b == before + s[start..p];
    SliceOfDigits(s, start, p);
    AllDigitsConcat(before, s[start..p]);
    DecValBound(before + s[start..p]);
    DigitsFit(|before| + (p - start));
    PowPositive(10, p - from);
  }

  /** round_up_bigint: a last digit 1 in place of what was cut off. */
  method RoundUp(big: StackVec, digits: nat, ghost t: Text) returns (count: nat)
    requires big.Valid() && Normalized(big.Limbs()) && AllDigits(t) && |t| <= MOST_DIGITS && big.Val() == DecVal(t)
    modifies big, big.data
    ensures big.Valid() && Normalized(big.Limbs()) && big.Val() == 10 * DecVal(t) + 1 && count == digits + 1
  {
    hide DecVal, Limit, Pow, Value;
    DecValBound(t);
    DigitsFit(|t| + 1);
    PowNext(10, |t|);
    AddNative(big, 10, 1);
    count := digits + 1;
  }

  /** parse_mantissa: every product and sum fits the limbs, and the number stands for the digits. */
  method ParseMantissa(big: StackVec, integer: Text, fraction: Text, max: nat) returns (digits: nat)
    requires big.Valid() && big.Val() == 0 && Normalized(big.Limbs())
    requires AllDigits(integer) && AllDigits(fraction) && 0 < max <= MOST_DIGITS
    modifies big, big.data
    ensures big.Valid() && Normalized(big.Limbs())
    ensures Stands(Significant(integer + fraction), max, big.Val(), digits)
    ensures var t := Significant(integer + fraction);
            if |t| <= max then digits == |t| && big.Val() == DecVal(t)
            else if forall i :: max <= i < |t| ==> t[i] == 48 then digits == max && big.Val() == DecVal(t[..max])
            else digits == max + 1 && big.Val() == 10 * DecVal(t[..max]) + 1
  {
    hide DecVal, AllDigits, Value, AllZeros, LeadingZeros, Stands, Significant;
    DecValOfNone([]);
    NoDigits();
    var z := SkipZeros(integer, 0);
    var p;
    p, digits := AddDigits(big, integer, z, [], max, 0);
    assert [] + integer[z..p] == integer[z..p];
    if digits == max {
      EmptyIsZeros(fraction[0..0]);
      SignificantSplit(integer, fraction, z, 0);
      var truncated := IsTruncated(integer, p);
      var more := IsTruncated(fraction, 0);
      assert integer[z..] + fraction[0..] == integer[z..p] + integer[p..] + fraction[0..];
      Cut(integer[z..p], integer[p..], fraction[0..]);
      if truncated || more {
        SliceOfDigits(integer, z, p);
        digits := RoundUp(big, digits, integer[z..p]);
      }
      StandsInFull(Significant(integer + fraction), max, big.Val(), digits);
      return;
    }
    assert integer[z..] == integer[z..p];
    SliceOfDigits(integer, z, |integer|);
    p := 0;
    EmptyIsZeros(fraction[0..0]);
    if digits == 0 {
      p := SkipZeros(fraction, p);
    }
    SignificantSplit(integer, fraction, z, p);
    digits := ParseFraction(big, fraction, p, integer[z..], max, digits);
    StandsInFull(Significant(integer + fraction), max, big.Val(), digits);
  }

  lemma StandsInFull(t: Text, max: nat, value: int, digits: nat)
    requires Stands(t, max, value, digits)
    ensures if |t| <= max then digits == |t| && value == DecVal(t)
            else if forall i :: max <= i < |t| ==> t[i] == 48 then digits == max && value == DecVal(t[..max])
            else digits == max + 1 && value == 10 * DecVal(t[..max]) + 1
  {
    hide DecVal;
    if |t| > max {
      if AllZeros(t[max..]) {
        assert forall i :: max <= i < |t| ==> t[i] == t[max..][i - max];
      } else {
        var i :| 0 <= i < |t[max..]| && t[max..][i] != ZERO;
        assert t[max + i] != 48;
      }
    }
  }

  /** The digits of the fraction, after those of the integer. */
  method ParseFraction(big: StackVec, fraction: Text, start: nat, ghost before: Text, max: nat, soFar: nat) returns (digits: nat)
    requires big.Valid() && Normalized(big.Limbs())
    requires start <= |fraction| && AllDigits(fraction) && AllDigits(before)
    requires |before| == soFar < max <= MOST_DIGITS && big.Val() == DecVal(before)
    modifies big, big.data
    ensures big.Valid() && Normalized(big.Limbs())
    ensures Stands(before + fraction[start..], max, big.Val(), digits)
  {
    hide DecVal, AllDigits, Value, AllZeros, LeadingZeros, Stands;
    var p;
    p, digits := AddDigits(big, fraction, start, before, max, soFar);
    ghost var taken := before + fraction[start..p];
    if digits == max {
      var truncated := IsTruncated(fraction, p);
      EmptyIsZeros([]);
      assert before + fraction[start..] == taken + [] + fraction[p..];
      Cut(taken, [], fraction[p..]);
      if truncated {
        TakenIsDigits(before, fraction, start, p);
        digits := RoundUp(big, digits, taken);
      }
    } else {
      assert before + fraction[start..] == taken;
      WholeStands(taken, max);
    }
  }

  lemma NoDigits()
    ensures AllDigits([])
  {
  }

  /** Skipping the zeros of the integer, and of the fraction if nothing is left, leaves the
      significant digits. */
  lemma SignificantSplit(integer: Text, fraction: Text, z: nat, y: nat)
    requires z <= |integer| && AllZeros(integer[0..z]) && (z < |integer| ==> integer[z] != ZERO)
    requires y <= |fraction| && AllZeros(fraction[0..y])
    requires if z < |integer| then y == 0 else y < |fraction| ==> fraction[y] != ZERO
    ensures Significant(integer + fraction) == integer[z..] + fraction[y..]
  {
    hide LeadingZeros, AllZeros;
    var s := integer + fraction;
    if z == |integer| {
      AllZerosConcat(integer[0..z], fraction[0..y]);
      assert s[0..z + y] == integer[0..z] + fraction[0..y];
      LeadingZerosUnique(s, z + y);
      assert s[z + y..] == integer[z..] + fraction[y..];
    } else {
      assert s[0..z] == integer[0..z];
      LeadingZerosUnique(s, z);
      assert s[z..] == integer[z..] + fraction[y..];
    }
  }

  lemma LeadingZerosUnique(s: Text, n: nat)
    requires n <= |s| && AllZeros(s[0..n]) && (n < |s| ==> s[n] != ZERO)
    ensures LeadingZeros(s) == n
  {
    var m := LeadingZeros(s);
    assert m < |s| ==> s[m] != ZERO;
  }

  /** When max digits are taken, what stands for the rest is whether any of it is nonzero. */
  lemma Cut(taken: Text, rest: Text, more: Text)
    ensures var t := taken + rest + more;
            if AllZeros(rest) && AllZeros(more) then Stands(t, |taken|, DecVal(taken), |taken|)
            else Stands(t, |taken|, 10 * DecVal(taken) + 1, |taken| + 1)
  {
    hide DecVal, AllZeros, Stands;
    AllZerosConcat(rest, more);
    assert taken + rest + more == taken + (rest + more);
    CutStands(taken, rest + more);
  }

  lemma AllZerosConcat(a: Text, b: Text)
    ensures AllZeros(a + b) <==> AllZeros(a) && AllZeros(b)
  {
    if AllZeros(a + b) {
      assert forall i :: 0 <= i < |a| ==> a[i] == (a + b)[i];
      assert forall i :: 0 <= i < |b| ==> b[i] == (a + b)[|a| + i];
    }
  }

  lemma CutStands(taken: Text, tail: Text)
    ensures if AllZeros(tail) then Stands(taken + tail, |taken|, DecVal(taken), |taken|)
            else Stands(taken + tail, |taken|, 10 * DecVal(taken) + 1, |taken| + 1)
  {
    hide DecVal, AllZeros, Stands;
    var t := taken + tail;
    if |tail| == 0 {
      assert t == taken;
      EmptyIsZeros(tail);
      WholeStands(t, |taken|);
    } else {
      assert t[..|taken|] == taken && t[|taken|..] == tail;
      PrefixStands(t, |taken|);
    }
  }

  lemma PrefixStands(t: Text, max: nat)
    requires max < |t|
    ensures if AllZeros(t[max..]) then Stands(t, max, DecVal(t[..max]), max)
            else Stands(t, max, 10 * DecVal(t[..max]) + 1, max + 1)
  {
    hide DecVal, AllZeros;
  }

  lemma EmptyIsZeros(s: Text)
    requires |s| == 0
    ensures AllZeros(s)
  {
  }

  lemma WholeStands(t: Text, max: nat)
    requires |t| <= max
    ensures Stands(t, max, DecVal(t), |t|)
  {
  }

  lemma TakenIsDigits(before: Text, fraction: Text, start: nat, p: nat)
    requires start <= p <= |fraction| && AllDigits(before) && AllDigits(fraction)
    ensures AllDigits(before + fraction[start..p])
  {
    SliceOfDigits(fraction, start, p);
    AllDigitsConcat(before, fraction[start..p]);
  }
}
