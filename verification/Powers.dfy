/** Powers of a natural base, with the few laws the other modules need. */
module Powers {

  function Pow(b: nat, e: nat): nat {
    if e == 0 then 1 else b * Pow(b, e - 1)
  }

  function Pow2(e: nat): nat {
    Pow(2, e)
  }

  /** One step of a power. */
  lemma PowNext(b: nat, e: nat)
    ensures Pow(b, e + 1) == b * Pow(b, e)
    ensures b == 2 ==> Pow2(e + 1) == 2 * Pow2(e)
  {
  }

  lemma PowNone(b: nat)
    ensures Pow(b, 0) == 1 && Pow2(0) == 1
  {
  }

  lemma {:induction false} PowPositive(b: nat, e: nat)
    requires 0 < b
    ensures 0 < Pow(b, e)
  {
    if e != 0 {
      PowPositive(b, e - 1);
    }
  }

  lemma {:induction false} PowAdd(b: nat, m: nat, n: nat)
    ensures Pow(b, m + n) == Pow(b, m) * Pow(b, n)
  {
    if m != 0 {
      PowAdd(b, m - 1, n);
      assert Pow(b, m + n) == b * Pow(b, m - 1 + n);
      MulAssociates(b, Pow(b, m - 1), Pow(b, n));
    }
  }

  lemma {:induction false} PowOfProduct(a: nat, b: nat, e: nat)
    ensures Pow(a * b, e) == Pow(a, e) * Pow(b, e)
  {
    if e != 0 {
      PowOfProduct(a, b, e - 1);
      var p, q := Pow(a, e - 1), Pow(b, e - 1);
      calc {
        a * b * (p * q);
      == { MulAssociates(a, b, p * q); MulAssociates(b, p, q); }
        a * (b * p * q);
      == { MulAssociates(p, b, q); assert b * p == p * b; }
        a * (p * (b * q));
      == { MulAssociates(a, p, b * q); }
        a * p * (b * q);
      }
    }
  }

  lemma {:induction false} PowMonotonic(b: nat, m: nat, n: nat)
    requires 0 < b && m <= n
    ensures Pow(b, m) <= Pow(b, n)
  {
    PowAdd(b, m, n - m);
    PowPositive(b, n - m);
    MulMonotonic(Pow(b, m), 1, Pow(b, n - m));
  }

  lemma {:induction false} PowStrictlyMonotonic(b: nat, m: nat, n: nat)
    requires 1 < b && m < n
    ensures Pow(b, m) < Pow(b, n)
  {
    PowMonotonic(b, m, n - 1);
    PowPositive(b, n - 1);
    MulMonotonic(Pow(b, n - 1), 2, b);
  }

  lemma {:induction false} PowBaseMonotonic(a: nat, b: nat, e: nat)
    requires a <= b
    ensures Pow(a, e) <= Pow(b, e)
  {
    if e != 0 {
      PowBaseMonotonic(a, b, e - 1);
      MulMonotonic(Pow(a, e - 1), a, b);
      MulMonotonic(b, Pow(a, e - 1), Pow(b, e - 1));
    }
  }

  lemma {:induction false} PowOfPow(b: nat, m: nat, n: nat)
    ensures Pow(Pow(b, m), n) == Pow(b, m * n)
  {
    if n != 0 {
      PowOfPow(b, m, n - 1);
      assert m * n == m + m * (n - 1);
      PowAdd(b, m, m * (n - 1));
    } else {
      assert m * n == 0;
    }
  }

  // ---------- multiplication and division, one fact at a time

  lemma MulCommutes(a: int, b: int)
    ensures a * b == b * a
  {
  }

  lemma MulAssociates(a: int, b: int, c: int)
    ensures a * b * c == a * (b * c)
  {
  }

  lemma MulMonotonic(k: nat, x: int, y: int)
    requires x <= y
    ensures k * x <= k * y && x * k <= y * k
  {
  }

  lemma MulDistributes(k: int, x: int, y: int)
    ensures k * (x + y) == k * x + k * y && (x + y) * k == x * k + y * k
  {
  }

  /** A quotient and a remainder below the divisor are unique. */
  lemma DivModUnique(x: int, d: int, q: int, r: int)
    requires 0 < d && x == q * d + r && 0 <= r < d
    ensures x / d == q && x % d == r
  {
    var q', r' := x / d, x % d;
    assert x == q' * d + r';
    assert (q - q') * d == r' - r;
    if q < q' {
      MulMonotonic(d, q - q', -1);
    } else if q > q' {
      MulMonotonic(d, 1, q - q');
    }
  }

  lemma DivModSplit(x: int, d: int)
    requires 0 < d
    ensures x == (x / d) * d + x % d && 0 <= x % d < d
    ensures 0 <= x ==> 0 <= x / d
  {
  }

  /** Order is kept and reflected by multiplying with a positive number. */
  lemma MulOrder(k: int, x: int, y: int)
    requires 0 < k
    ensures x < y <==> k * x < k * y
    ensures x <= y <==> k * x <= k * y
  {
    if x < y {
      assert k * (y - x) > 0;
    } else {
      assert k * (x - y) >= 0;
      if y < x {
        assert k * (x - y) > 0;
      }
    }
  }

  lemma ModOfMultiple(x: int, q: int, d: int)
    requires 0 < d
    ensures (x + q * d) % d == x % d
  {
    DivModSplit(x, d);
    MulDistributes(d, x / d, q);
    DivModUnique(x + q * d, d, x / d + q, x % d);
  }
}
