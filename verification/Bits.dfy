/** Bitwise operations on natural numbers, and what the masks built from them compute. */
module Bits {
  import opened Powers

  const TWO32: nat := 0x1_0000_0000
  const TWO64: nat := 0x1_0000_0000_0000_0000

  type word = x: nat | x < TWO64

  function And(x: nat, y: nat): nat {
    if x == 0 || y == 0 then 0 else (if x % 2 == 1 && y % 2 == 1 then 1 else 0) + 2 * And(x / 2, y / 2)
  }

  function Or(x: nat, y: nat): nat
    decreases x + y
  {
    if x == 0 then y
    else if y == 0 then x
    else (if x % 2 == 1 || y % 2 == 1 then 1 else 0) + 2 * Or(x / 2, y / 2)
  }

  /** A 64-bit left shift: bits pushed beyond the word are lost. */
  function Shl(x: word, k: nat): word {
    x * Pow2(k) % TWO64
  }

  function Shr(x: nat, k: nat): nat {
    PowPositive(2, k);
    x / Pow2(k)
  }

  lemma TwoToThe64()
    ensures Pow2(64) == TWO64
  {
    assert Pow(2, 4) == 16;
    PowAdd(2, 4, 4);
    PowAdd(2, 8, 8);
    PowAdd(2, 16, 16);
    PowAdd(2, 32, 32);
  }

  lemma Doubled(a: nat, b: nat, p: nat)
    ensures (a + b * (2 * p)) % 2 == a % 2
    ensures (a + b * (2 * p)) / 2 == a / 2 + b * p
  {
    assert b * (2 * p) == 2 * (b * p);
  }

  /** One step of And on numbers split into a bit and the rest. */
  lemma AndStep(x: nat, y: nat)
    ensures And(x, y) == (if x % 2 == 1 && y % 2 == 1 then 1 else 0) + 2 * And(x / 2, y / 2)
  {
  }

  lemma OrStep(x: nat, y: nat)
    ensures Or(x, y) == (if x % 2 == 1 || y % 2 == 1 then 1 else 0) + 2 * Or(x / 2, y / 2)
  {
    if x == 0 || y == 0 {
      assert Or(x / 2, y / 2) == (if x == 0 then y / 2 else x / 2);
    }
  }

  /** And works on low and high parts separately. */
  lemma {:induction false} AndSplit(k: nat, a: nat, b: nat, c: nat, d: nat, x: nat, y: nat)
    requires a < Pow2(k) && c < Pow2(k)
    requires x == a + b * Pow2(k) && y == c + d * Pow2(k)
    ensures And(x, y) == And(a, c) + And(b, d) * Pow2(k)
  {
    if k == 0 {
      assert x == b && y == d;
    } else {
      var p := Pow2(k - 1);
      Doubled(a, b, p);
      Doubled(c, d, p);
      AndSplit(k - 1, a / 2, b, c / 2, d, x / 2, y / 2);
      AndSplitStep(a, c, x, y, And(b, d) * p);
      TimesDouble(And(b, d), p, Pow2(k));
    }
  }

  lemma TimesDouble(n: nat, p: nat, q: nat)
    requires q == 2 * p
    ensures n * q == 2 * (n * p)
  {
  }

  lemma AndSplitStep(a: nat, c: nat, x: nat, y: nat, high: int)
    requires x % 2 == a % 2 && y % 2 == c % 2
    requires And(x / 2, y / 2) == And(a / 2, c / 2) + high
    ensures And(x, y) == And(a, c) + 2 * high
  {
    AndStep(x, y);
    AndStep(a, c);
  }

  lemma {:induction false} AndZero(x: nat)
    ensures And(x, 0) == 0 && And(0, x) == 0
  {
  }

  lemma ModDoubled(x: nat, p: nat)
    requires 0 < p
    ensures x % (2 * p) == x % 2 + 2 * (x / 2 % p)
  {
    DivModSplit(x / 2, p);
    var q, r := x / 2 / p, x / 2 % p;
    assert q * (2 * p) == 2 * (q * p);
    DivModUnique(x, 2 * p, q, x % 2 + 2 * r);
  }

  /** And with 2^k - 1 keeps the k low bits of any number. */
  lemma {:induction false} AndLowMask(x: nat, k: nat)
    ensures 0 < Pow2(k)
    ensures And(x, Pow2(k) - 1) == x % Pow2(k)
  {
    hide And;
    PowPositive(2, k);
    if k == 0 {
      AndZero(x);
    } else {
      var p := Pow2(k - 1);
      PowPositive(2, k - 1);
      AndLowMask(x / 2, k - 1);
      ModDoubled(x, p);
      AndStep(x, 2 * p - 1);
    }
  }

  /** And with (2^w - 1) - (2^k - 1) clears the k low bits of a w-bit number. */
  lemma {:induction false} AndHighMask(x: nat, k: nat, w: nat)
    requires k <= w && x < Pow2(w)
    ensures 0 < Pow2(k) <= Pow2(w)
    ensures And(x, Pow2(w) - Pow2(k)) == x - x % Pow2(k)
  {
    PowPositive(2, k);
    PowMonotonic(2, k, w);
    PowPositive(2, w - k);
    PowAdd(2, w - k, k);
    var p, n, q, r := Pow2(k), Pow2(w - k), x / Pow2(k), x % Pow2(k);
    DivModSplit(x, p);
    if q >= n {
      MulMonotonic(p, n, q);
      assert false;
    }
    MulDistributes(p, n, -1);
    AndSplit(k, r, q, 0, n - 1, x, Pow2(w) - p);
    AndZero(r);
    AndLowMask(q, w - k);
    DivModUnique(q, n, 0, q);
  }

  /** Or of numbers whose bits do not meet is their sum. */
  lemma {:induction false} OrDisjoint(k: nat, a: nat, b: nat)
    requires b < Pow2(k)
    ensures Or(a * Pow2(k), b) == a * Pow2(k) + b
  {
    if k != 0 {
      var p := Pow2(k - 1);
      assert Pow2(k) == 2 * p;
      OrDisjoint(k - 1, a, b / 2);
      Doubled(0, a, p);
      OrStep(a * (2 * p), b);
      MulAssociates(a, 2, p);
    }
  }
}
