/** Bytes and little-endian integers, as the packed structures of the cache store them. */
module Bytes {
  import opened Powers

  type byte = b: int | 0 <= b < 256

  datatype Option<+T> = None | Some(value: T)

  /** The number stored little-endian in a byte sequence. */
  function Le(s: seq<byte>): nat {
    if s == [] then 0 else s[0] + 256 * Le(s[1..])
  }

  /** The k low bytes of v, least significant first; higher bytes are cut off. */
  function ToLe(v: nat, k: nat): (s: seq<byte>)
    ensures |s| == k
  {
    if k == 0 then [] else [v % 256] + ToLe(v / 256, k - 1)
  }

  lemma {:induction false} LeOfToLe(v: nat, k: nat)
    requires v < Pow(256, k)
    ensures Le(ToLe(v, k)) == v
  {
    if k != 0 {
      LeOfToLe(v / 256, k - 1);
    }
  }

  /** A field that is too narrow keeps the value modulo its range. */
  lemma {:induction false} LeOfToLeTruncates(v: nat, k: nat)
    ensures 0 < Pow(256, k)
    ensures Le(ToLe(v, k)) == v % Pow(256, k)
  {
    if k != 0 {
      LeOfToLeTruncates(v / 256, k - 1);
      ModStep(v, Pow(256, k - 1));
    }
  }

  lemma ModStep(v: nat, p: nat)
    requires 0 < p
    ensures v % (256 * p) == v % 256 + 256 * (v / 256 % p)
  {
    DivModSplit(v / 256, p);
    TruncationStep(v, p, v / 256 / p, v / 256 % p);
  }

  lemma TruncationStep(v: nat, p: nat, q: int, r: int)
    requires 0 < p && v / 256 == q * p + r && 0 <= r < p && 0 <= q
    ensures v % (256 * p) == v % 256 + 256 * r
  {
    assert q * (256 * p) == 256 * (q * p);
    DivModUnique(v, 256 * p, q, v % 256 + 256 * r);
  }

  lemma {:induction false} ToLeOfLe(s: seq<byte>)
    ensures ToLe(Le(s), |s|) == s
  {
    if s != [] {
      ToLeOfLe(s[1..]);
      DivModUnique(Le(s), 256, Le(s[1..]), s[0]);
      assert s == [s[0]] + s[1..];
    }
  }

  lemma {:induction false} LeZero(k: nat)
    ensures ToLe(0, k) == seq(k, _ => 0)
  {
    if k != 0 {
      LeZero(k - 1);
    }
  }

  // ---------- numbers by place value

  function Two(s: seq<byte>, p: nat): (n: nat)
    requires p + 2 <= |s|
    ensures n < 0x1_0000
  {
    s[p] as int + 0x100 * s[p + 1] as int
  }

  function Four(s: seq<byte>, p: nat): (n: nat)
    requires p + 4 <= |s|
    ensures n < 0x1_0000_0000
  {
    s[p] as int + 0x100 * s[p + 1] as int + 0x1_0000 * s[p + 2] as int + 0x100_0000 * s[p + 3] as int
  }

  function Eight(s: seq<byte>, p: nat): (n: nat)
    requires p + 8 <= |s|
    ensures n < 0x1_0000_0000_0000_0000
  {
    Four(s, p) + 0x1_0000_0000 * Four(s, p + 4)
  }

  /** The low byte comes first. */
  lemma PlaceValues(s: seq<byte>, p: nat)
    ensures p + 2 <= |s| ==> Le(s[p..p + 2]) == Two(s, p)
    ensures p + 4 <= |s| ==> Le(s[p..p + 4]) == Four(s, p)
    ensures p + 8 <= |s| ==> Le(s[p..p + 8]) == Eight(s, p)
  {
    if p + 2 <= |s| {
      PlacesOfTwo(s[p..p + 2]);
    }
    if p + 4 <= |s| {
      PlacesOfFour(s[p..p + 4]);
    }
    if p + 8 <= |s| {
      PlacesOfFour(s[p..p + 4]);
      PlacesOfFour(s[p + 4..p + 8]);
      PlacesOfEight(s[p..p + 8], s[p..p + 4], s[p + 4..p + 8]);
    }
  }

  lemma LeStep(t: seq<byte>)
    requires |t| > 0
    ensures Le(t) == t[0] as int + 0x100 * Le(t[1..])
  {
  }

  lemma PlacesOfTwo(t: seq<byte>)
    requires |t| == 2
    ensures Le(t) == Two(t, 0)
  {
    LeStep(t);
    LeStep(t[1..]);
  }

  lemma PlacesOfFour(t: seq<byte>)
    requires |t| == 4
    ensures Le(t) == Four(t, 0)
  {
    PlacesOfTwo(t[2..]);
    LeStep(t);
    LeStep(t[1..]);
    assert t[1..][1..] == t[2..];
  }

  lemma PlacesOfEight(t: seq<byte>, a: seq<byte>, b: seq<byte>)
    requires |t| == 8 && a == t[..4] && b == t[4..]
    ensures Le(t) == Le(a) + 0x1_0000_0000 * Le(b)
  {
    hide Le;
    PlacesOfFour(a);
    LeStep(t);
    LeStep(t[1..]);
    LeStep(t[2..]);
    LeStep(t[3..]);
    assert t[1..][1..] == t[2..] && t[2..][1..] == t[3..] && t[3..][1..] == b;
  }

  /** A slice that lies inside the first operand, or inside the second, of a concatenation. */
  lemma SliceOfConcat<T>(a: seq<T>, b: seq<T>, i: nat, j: nat)
    requires i <= j <= |a| + |b|
    ensures j <= |a| ==> (a + b)[i..j] == a[i..j]
    ensures |a| <= i ==> (a + b)[i..j] == b[i - |a|..j - |a|]
  {
  }

  lemma SliceOfSlice<T>(s: seq<T>, i: nat, j: nat, k: nat, l: nat)
    requires i <= j <= |s| && k <= l <= j - i
    ensures s[i..j][k..l] == s[i + k..i + l]
  {
    var a, b := s[i..j][k..l], s[i + k..i + l];
    assert |a| == |b| && forall m :: 0 <= m < |a| ==> a[m] == b[m];
  }
}
