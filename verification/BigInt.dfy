/** The big integer of the decimal parser: little-endian 64-bit limbs in a fixed buffer. Every
    operation that reports success is exact, and it reports failure exactly when the result does
    not fit the buffer. */
module BigInt {
  import opened Powers
  import opened Bits

  const LIMB_BITS: nat := 64
  const LIMBS: nat := 62  // 4000 / 64

  type limb = word

  /** 2^(64 k) */
  function Base(k: nat): nat {
    Pow(TWO64, k)
  }

  /** The first value that does not fit the buffer. */
  function Limit(): nat {
    Base(LIMBS)
  }

  /** The buffer has 3968 bits. */
  lemma LimitInBits()
    ensures Limit() == Pow2(3968) && LIMBS * 64 == 3968
  {
    TwoToThe64();
    PowOfPow(2, 64, LIMBS);
  }

  function Value(s: seq<limb>): int {
    if |s| == 0 then 0 else Value(s[..|s| - 1]) + s[|s| - 1] * Base(|s| - 1)
  }

  /** No leading zero limb, the form that comparing by length needs. */
  predicate Normalized(s: seq<limb>) {
    |s| == 0 || s[|s| - 1] != 0
  }

  // ---------- the value of a sequence of limbs

  lemma BaseStep(k: nat)
    ensures Base(k + 1) == TWO64 * Base(k) && 0 < Base(k)
  {
    PowPositive(TWO64, k);
  }

  lemma ValueOfEmpty(s: seq<limb>)
    requires |s| == 0
    ensures Value(s) == 0
  {
  }

  lemma ValueOfPush(s: seq<limb>, x: limb)
    ensures Value(s + [x]) == Value(s) + x * Base(|s|)
  {
    assert (s + [x])[..|s|] == s;
  }

  lemma ValueOfPrefix(s: seq<limb>, i: nat)
    requires i < |s|
    ensures Value(s[..i + 1]) == Value(s[..i]) + s[i] * Base(i)
  {
    assert s[..i + 1][..i] == s[..i];
  }

  lemma {:induction false} ValueOfConcat(a: seq<limb>, b: seq<limb>)
    ensures Value(a + b) == Value(a) + Value(b) * Base(|a|)
  {
    if |b| == 0 {
      assert a + b == a;
    } else {
      var m := |b| - 1;
      var x, v := b[m], Value(b[..m]);
      assert a + b == (a + b[..m]) + [x];
      ValueOfPush(a + b[..m], x);
      ValueOfConcat(a, b[..m]);
      BaseAdd(m, |a|);
      MulAssociates(x, Base(m), Base(|a|));
      MulDistributes(Base(|a|), v, x * Base(m));
    }
  }

  lemma {:induction false} ValueBound(s: seq<limb>)
    ensures 0 <= Value(s) < Base(|s|)
  {
    if |s| != 0 {
      var m := |s| - 1;
      ValueBound(s[..m]);
      BaseStep(m);
      MulMonotonic(Base(m), s[m], TWO64 - 1);
      MulDistributes(Base(m), TWO64, -1);
    }
  }

  /** A nonzero top limb is worth at least its base, a zero one nothing. */
  lemma TopLimb(s: seq<limb>)
    requires 0 < |s|
    ensures s[|s| - 1] != 0 <==> Base(|s| - 1) <= Value(s)
  {
    var m := |s| - 1;
    ValueBound(s[..m]);
    PowPositive(TWO64, m);
    if s[m] != 0 {
      MulMonotonic(Base(m), 1, s[m]);
    }
  }

  lemma {:induction false} ValueOfZeros(k: nat)
    ensures Value(seq(k, _ => 0)) == 0
  {
    if k != 0 {
      assert seq<limb>(k, _ => 0)[..k - 1] == seq<limb>(k - 1, _ => 0);
      ValueOfZeros(k - 1);
    }
  }

  lemma BaseZero()
    ensures Base(0) == 1
  {
  }

  lemma BaseAdd(i: nat, j: nat)
    ensures Base(i + j) == Base(i) * Base(j)
  {
    PowAdd(TWO64, i, j);
  }

  lemma BaseMonotonic(i: nat, j: nat)
    requires i <= j
    ensures 0 < Base(i) <= Base(j)
  {
    PowPositive(TWO64, i);
    PowMonotonic(TWO64, i, j);
  }

  /** A value as long as the limbs that hold it fits the buffer. */
  lemma FitsByLength(s: seq<limb>)
    requires |s| <= LIMBS
    ensures 0 <= Value(s) < Limit()
  {
    hide Base, Value;
    ValueBound(s);
    BaseMonotonic(|s|, LIMBS);
  }

  // ---------- scalar operations

  /** Sum modulo 2^64, and whether it overflowed. */
  function ScalarAdd(x: limb, y: limb): (r: (limb, bool))
    ensures x + y == r.0 + if r.1 then TWO64 else 0
  {
    ((x + y) % TWO64, x + y >= TWO64)
  }

  /** Low and high half of x * y + carry. */
  function ScalarMul(x: limb, y: limb, carry: limb): (r: (limb, limb))
    ensures x * y + carry == r.0 + r.1 * TWO64
  {
    ProductBound(x, y, carry);
    var z := x * y + carry;
    (z % TWO64, z / TWO64)
  }

  lemma ProductBound(x: limb, y: limb, carry: limb)
    ensures 0 <= x * y + carry < TWO64 * TWO64
  {
    MulMonotonic(x, 0, y);
    MulMonotonic(x, y, TWO64 - 1);
    MulMonotonic(TWO64 - 1, x, TWO64 - 1);
  }

  // ---------- one step of each loop

  lemma MulStep(lo: int, old': int, carry: int, b: int, y: int, x: int, z: int, c: int)
    requires lo + carry * b == y * old'
    requires x * y + carry == z + c * TWO64
    ensures lo + z * b + c * (TWO64 * b) == y * (old' + x * b)
  {
    calc {
      lo + z * b + c * (TWO64 * b);
    == { MulAssociates(c, TWO64, b); MulDistributes(b, z, c * TWO64); }
      lo + (z + c * TWO64) * b;
    ==
      lo + (x * y + carry) * b;
    == { MulDistributes(b, x * y, carry); }
      y * old' + x * y * b;
    == { MulAssociates(y, x, b); assert x * y == y * x; MulDistributes(y, old', x * b); }
      y * (old' + x * b);
    }
  }

  lemma AddStep(lo: int, goal: int, carry: int, b: int, x: int, z: int, c: int)
    requires lo + carry * b == goal
    requires x + carry == z + c * TWO64
    ensures lo + z * b + c * (TWO64 * b) == goal + x * b
  {
    calc {
      lo + z * b + c * (TWO64 * b);
    == { MulAssociates(c, TWO64, b); MulDistributes(b, z, c * TWO64); }
      lo + (z + c * TWO64) * b;
    ==
      lo + (x + carry) * b;
    == { MulDistributes(b, x, carry); }
      goal + x * b;
    }
  }

  // ---------- the buffer and its operations

  class StackVec {
    const data: array<limb>
    var length: nat

    ghost predicate Valid()
      reads this
    {
      data.Length == LIMBS && length <= LIMBS
    }

    ghost function Limbs(): (s: seq<limb>)
      reads this, data
      requires Valid()
    {
      data[..length]
    }

    ghost function Val(): int
      reads this, data
      requires Valid()
    {
      Value(Limbs())
    }

    constructor ()
      ensures Valid() && Limbs() == [] && fresh(data)
    {
      data := new limb[LIMBS](_ => 0);
      length := 0;
    }

    method TryPush(value: limb) returns (ok: bool)
      requires Valid()
      modifies this, data
      ensures Valid() && ok == (old(length) < LIMBS)
      ensures Limbs() == if ok then old(Limbs()) + [value] else old(Limbs())
    {
      if length < LIMBS {
        data[length] := value;
        length := length + 1;
        return true;
      }
      return false;
    }

    method TryExtend(s: seq<limb>) returns (ok: bool)
      requires Valid()
      modifies this, data
      ensures Valid() && ok == (old(length) + |s| <= LIMBS)
      ensures Limbs() == if ok then old(Limbs()) + s else old(Limbs())
    {
      if length + |s| <= LIMBS {
        forall i | 0 <= i < |s| {
          data[length + i] := s[i];
        }
        length := length + |s|;
        return true;
      }
      return false;
    }

    /** Used only to lengthen the vector. */
    method TryResize(newLength: nat, value: limb) returns (ok: bool)
      requires Valid() && length <= newLength
      modifies this, data
      ensures Valid() && ok == (newLength <= LIMBS)
      ensures Limbs() == if ok then old(Limbs()) + seq(newLength - old(length), _ => value) else old(Limbs())
    {
      if newLength > LIMBS {
        return false;
      }
      forall i | length <= i < newLength {
        data[i] := value;
      }
      length := newLength;
      return true;
    }

    method Normalize()
      requires Valid()
      modifies this
      ensures Valid() && Normalized(Limbs()) && Val() == old(Val())
    {
      while length > 0 && data[length - 1] == 0
        invariant Valid() && Val() == old(Val())
      {
        assert data[..length][..length - 1] == data[..length - 1];
        length := length - 1;
      }
    }

    // ---------- scalar operations

    method SmallMul(y: limb) returns (ok: bool)
      requires Valid()
      modifies this, data
      ensures Valid()
      ensures ok <==> y * old(Val()) < Limit()
      ensures ok ==> Val() == y * old(Val())
      ensures ok && y != 0 && Normalized(old(Limbs())) ==> Normalized(Limbs())
    {
      hide Limit, Base, Value;
      ghost var s := Limbs();
      var carry: limb := 0;
      ValueOfEmpty(s[..0]);
      ValueOfEmpty(data[..0]);
      for index := 0 to length
        invariant length == |s| && data[index..length] == s[index..]
        invariant Value(data[..index]) + carry * Base(index) == y * Value(s[..index])
      {
        ghost var before := data[..];
        var (low, high) := ScalarMul(data[index], y, carry);
        assert data[index] == s[index];
        MulStep(Value(data[..index]), Value(s[..index]), carry, Base(index), y, s[index], low, high);
        BaseStep(index);
        ValueOfPrefix(s, index);
        data[index], carry := low, high;
        assert data[..index] == before[..index];
        assert data[..index + 1] == data[..index] + [low];
        ValueOfPush(data[..index], low);
      }
      assert s[..length] == s;
      CarryDecides(data[..length], carry);
      ProductIsNormalized(s, y, data[..length], carry);
      if carry != 0 {
        ValueOfPush(Limbs(), carry);
        ok := TryPush(carry);
        return;
      }
      return true;
    }

    /** Adds y at limb start, rippling the carry upwards. */
    method SmallAddFrom(y: limb, start: nat) returns (ok: bool)
      requires Valid() && start <= length
      modifies this, data
      ensures Valid()
      ensures ok <==> old(Val()) + y * Base(start) < Limit()
      ensures ok ==> Val() == old(Val()) + y * Base(start)
      ensures ok && Normalized(old(Limbs())) ==> Normalized(Limbs())
    {
      hide Limit, Base, Value;
      ghost var s := Limbs();
      var index := start;
      var carry: limb := y;
      assert data[..start] == s[..start];
      while carry != 0 && index < length
        invariant start <= index <= length == |s| && data[index..length] == s[index..]
        invariant Value(data[..index]) + carry * Base(index) == Value(s[..index]) + y * Base(start)
      {
        ghost var before := data[..];
        var (sum, overflow) := ScalarAdd(data[index], carry);
        assert data[index] == s[index];
        AddStep(Value(data[..index]), Value(s[..index]) + y * Base(start), carry, Base(index),
                s[index], sum, if overflow then 1 else 0);
        BaseStep(index);
        ValueOfPrefix(s, index);
        data[index], carry := sum, if overflow then 1 else 0;
        assert data[..index] == before[..index];
        assert data[..index + 1] == data[..index] + [sum];
        ValueOfPush(data[..index], sum);
        index := index + 1;
      }
      ghost var r := data[..length];
      assert r[..index] == data[..index];
      TailUnchanged(r, s, index);
      assert Value(r) + carry * Base(|r|) == Value(s) + y * Base(start);
      BaseMonotonic(0, start);
      CarryDecides(r, carry);
      SumIsNormalized(s, y * Base(start), r, carry);
      if carry != 0 {
        ValueOfPush(Limbs(), carry);
        ok := TryPush(carry);
        return;
      }
      return true;
    }

    method SmallAdd(y: limb) returns (ok: bool)
      requires Valid()
      modifies this, data
      ensures Valid()
      ensures ok <==> old(Val()) + y < Limit()
      ensures ok ==> Val() == old(Val()) + y
      ensures ok && Normalized(old(Limbs())) ==> Normalized(Limbs())
    {
      hide Limit, Base, Value;
      BaseZero();
      ok := SmallAddFrom(y, 0);
    }

    // ---------- operations with another big integer

    method LargeAddFrom(y: seq<limb>, start: nat) returns (ok: bool)
      requires Valid()
      modifies this, data
      ensures Valid()
      ensures ok <==> |y| + start <= LIMBS && old(Val()) + Value(y) * Base(start) < Limit()
      ensures ok ==> Val() == old(Val()) + Value(y) * Base(start)
    {
      hide Limit, Base, Value;
      if length < start || |y| > length - start {
        ghost var zeros: seq<limb> := seq(|y| + start - length, _ => 0);
        ValueOfConcat(Limbs(), zeros);
        ValueOfZeros(|zeros|);
        ok := TryResize(|y| + start, 0);
        if !ok {
          return false;
        }
      }
      assert Val() == old(Val());
      var carry := AddLimbs(y, start);
      if carry {
        ok := SmallAddFrom(1, |y| + start);
        return;
      }
      FitsByLength(Limbs());
      return true;
    }

    /** The limb-wise loop: the sum up to a carry out of the limbs of y. */
    method AddLimbs(y: seq<limb>, start: nat) returns (carry: bool)
      requires Valid() && |y| + start <= length
      modifies data
      ensures Valid()
      ensures Val() + (if carry then Base(|y| + start) else 0) == old(Val()) + Value(y) * Base(start)
    {
      hide Base, Value;
      ghost var s := Limbs();
      carry := false;
      ValueOfEmpty(y[..0]);
      assert data[..start] == s[..start];
      for index := 0 to |y|
        invariant length == |s| && data[index + start..length] == s[index + start..]
        invariant Value(data[..index + start]) + (if carry then 1 else 0) * Base(index + start)
                  == Value(s[..index + start]) + Value(y[..index]) * Base(start)
      {
        ghost var before, c := data[..], if carry then 1 else 0;
        var at := index + start;
        var xi, c1, c2 := data[at], false, false;
        assert xi == s[at];
        var (sum, overflow) := ScalarAdd(xi, y[index]);
        xi, c1 := sum, overflow;
        if carry {
          var (sum2, overflow2) := ScalarAdd(xi, 1);
          xi, c2 := sum2, overflow2;
        }
        carry := c1 || c2;
        data[at] := xi;
        LimbStep(before, data[..], s, y, index, start, c, if carry then 1 else 0);
      }
      assert y[..|y|] == y;
      ghost var r := data[..length];
      assert r[..|y| + start] == data[..|y| + start];
      TailUnchanged(r, s, |y| + start);
    }

    /** Adds the product of z and a limb, shifted to position index. */
    method AddTerm(z: seq<limb>, yi: limb, index: nat) returns (ok: bool)
      requires Valid() && |z| <= LIMBS && Normalized(z) && yi != 0 && index < LIMBS
      requires yi * Value(z) <= Value(z) * yi * Base(index)
      modifies this, data
      ensures Valid()
      ensures ok <==> old(Val()) + Value(z) * yi * Base(index) < Limit()
      ensures ok ==> Val() == old(Val()) + Value(z) * yi * Base(index)
    {
      hide Limit, Base, Value;
      ValueBound(Limbs());
      var zi := new StackVec();
      ok := zi.TryExtend(z);
      assert zi.Limbs() == z;
      ok := zi.SmallMul(yi);
      if !ok {
        return false;
      }
      TermFits(z, zi.Limbs(), yi, index);
      ok := LargeAddFrom(zi.data[..zi.length], index);
    }

    method LongMul(y: seq<limb>) returns (ok: bool)
      requires Valid() && Normalized(Limbs()) && 0 < |y| <= LIMBS
      modifies this, data
      ensures Valid()
      ensures ok <==> old(Val()) * Value(y) < Limit()
      ensures ok ==> Val() == old(Val()) * Value(y) && Normalized(Limbs())
    {
      hide Limit, Base, Value;
      ghost var v := Val();
      var z := data[..length];
      ValueBound(z);
      BaseZero();
      ValueOfEmpty(y[..0]);
      ValueOfPrefix(y, 0);
      PrefixBelow(v, y, 0);
      ok := SmallMul(y[0]);
      if !ok {
        return false;
      }
      for index := 1 to |y|
        invariant Valid() && Val() == v * Value(y[..index])
      {
        var yi := y[index];
        PrefixBelow(v, y, index);
        ValueOfPrefix(y, index);
        if yi != 0 {
          ok := AddTerm(z, yi, index);
          if !ok {
            return false;
          }
        }
      }
      assert y[..|y|] == y;
      FitsByLength(Limbs());
      Normalize();
      ok := true;
    }

    method LargeMul(y: seq<limb>) returns (ok: bool)
      requires Valid() && Normalized(Limbs()) && 0 < |y| <= LIMBS && Normalized(y)
      modifies this, data
      ensures Valid()
      ensures ok <==> old(Val()) * Value(y) < Limit()
      ensures ok ==> Val() == old(Val()) * Value(y) && Normalized(Limbs())
    {
      hide Limit, Base, Value;
      if |y| == 1 {
        ValueOfPrefix(y, 0);
        BaseZero();
        ValueOfEmpty(y[..0]);
        assert y[..1] == y;
        ok := SmallMul(y[0]);
      } else {
        ok := LongMul(y);
      }
    }
  }

  /** A value held in length limbs and a carry fits the buffer unless the carry finds no room. */
  lemma CarryDecides(s: seq<limb>, carry: limb)
    requires |s| <= LIMBS
    ensures Value(s) + carry * Base(|s|) < Limit() <==> carry == 0 || |s| < LIMBS
  {
    hide Base, Value;
    if carry == 0 {
      FitsByLength(s);
    } else {
      ValueBound(s);
      BaseMonotonic(|s|, LIMBS);
      MulMonotonic(Base(|s|), 1, carry);
      if |s| < LIMBS {
        ValueOfPush(s, carry);
        FitsByLength(s + [carry]);
      }
    }
  }

  lemma ProductIsNormalized(s: seq<limb>, y: limb, r: seq<limb>, carry: limb)
    requires |r| == |s| && Value(r) + carry * Base(|r|) == y * Value(s)
    ensures carry == 0 && y != 0 && Normalized(s) ==> Normalized(r)
  {
    if carry == 0 && y != 0 && Normalized(s) && |s| != 0 {
      TopLimb(s);
      TopLimb(r);
      ValueBound(s);
      MulMonotonic(Value(s), 1, y);
    }
  }

  lemma TailUnchanged(r: seq<limb>, s: seq<limb>, i: nat)
    requires |r| == |s| && i <= |s| && r[i..] == s[i..]
    ensures Value(r) - Value(r[..i]) == Value(s) - Value(s[..i])
  {
    ValueOfConcat(r[..i], r[i..]);
    ValueOfConcat(s[..i], s[i..]);
    assert r[..i] + r[i..] == r && s[..i] + s[i..] == s;
  }

  lemma SumIsNormalized(s: seq<limb>, t: int, r: seq<limb>, carry: limb)
    requires |r| == |s| && Value(r) + carry * Base(|r|) == Value(s) + t
    ensures carry == 0 && 0 <= t && Normalized(s) ==> Normalized(r)
  {
    if |s| != 0 {
      TopLimb(s);
      TopLimb(r);
    }
  }

  lemma LimbSum(lo: int, s: int, y: int, c: int, index: nat, start: nat, x: int, yi: int, z: int, c': int)
    requires lo + c * Base(index + start) == s + y * Base(start)
    requires x + yi + c == z + c' * TWO64
    ensures lo + z * Base(index + start) + c' * Base(index + 1 + start)
            == s + x * Base(index + start) + (y + yi * Base(index)) * Base(start)
  {
    var b := Base(index + start);
    BaseStep(index + start);
    AddStep(lo, s + y * Base(start), c, b, x + yi, z, c');
    BaseAdd(index, start);
    MulDistributes(b, x, yi);
    MulAssociates(yi, Base(index), Base(start));
    MulDistributes(Base(start), y, yi * Base(index));
  }

  lemma LimbStep(before: seq<limb>, after: seq<limb>, s: seq<limb>, y: seq<limb>, index: nat, start: nat, c: int, c': int)
    requires index < |y| && index + start < |s| <= |before| && |after| == |before|
    requires after == before[index + start := after[index + start]]
    requires Value(before[..index + start]) + c * Base(index + start)
             == Value(s[..index + start]) + Value(y[..index]) * Base(start)
    requires s[index + start] + y[index] + c == after[index + start] + c' * TWO64
    ensures Value(after[..index + 1 + start]) + c' * Base(index + 1 + start)
            == Value(s[..index + 1 + start]) + Value(y[..index + 1]) * Base(start)
  {
    hide Base, Value;
    var at := index + start;
    LimbSum(Value(before[..at]), Value(s[..at]), Value(y[..index]), c, index, start, s[at], y[index], after[at], c');
    ValueOfPrefix(s, at);
    ValueOfPrefix(y, index);
    ValueOfPrefix(after, at);
    assert after[..at] == before[..at];
  }

  /** The product with a prefix of y, and with one of its limbs, is at most the whole product. */
  lemma {:induction false} PrefixBelow(v: int, y: seq<limb>, i: nat)
    requires 0 <= v && i < |y|
    ensures v * Value(y[..i]) + v * y[i] * Base(i) == v * Value(y[..i + 1]) <= v * Value(y)
    ensures y[i] * v <= v * y[i] * Base(i) <= v * Value(y)
  {
    ValueOfPrefix(y, i);
    ValueOfConcat(y[..i + 1], y[i + 1..]);
    assert y[..i + 1] + y[i + 1..] == y;
    ValueBound(y[i + 1..]);
    ValueBound(y[..i]);
    BaseMonotonic(0, i);
    var x, b := y[i], Base(i);
    MulMonotonic(Base(i + 1), 0, Value(y[i + 1..]));
    MulMonotonic(v, Value(y[..i + 1]), Value(y));
    MulDistributes(v, Value(y[..i]), x * b);
    MulAssociates(v, x, b);
    MulMonotonic(v, 0, Value(y[..i]));
    MulMonotonic(v, 0, x);
    MulMonotonic(v * x, 1, b);
  }

  /** A term of the product that has too many limbs is too large. */
  lemma TermFits(z: seq<limb>, zi: seq<limb>, yi: limb, index: nat)
    requires Normalized(z) && Normalized(zi) && Value(zi) == yi * Value(z) && index < LIMBS
    requires |zi| <= LIMBS
    ensures |zi| + index > LIMBS ==> Limit() <= Value(z) * yi * Base(index)
  {
    hide Base, Value;
    if |zi| + index > LIMBS {
      TopLimb(zi);
      BaseMonotonic(LIMBS, |zi| - 1 + index);
      BaseAdd(|zi| - 1, index);
      MulMonotonic(Base(index), Base(|zi| - 1), Value(zi));
      assert Value(zi) == Value(z) * yi;
    }
  }
}
