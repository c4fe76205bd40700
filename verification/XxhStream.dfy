/** The streaming forms of XXH32 and XXH64 agree with the one-shot forms for every way of cutting the
    input. The rounds, the merging of the lanes and the final mixing are parameters. */
module XxhStream {
  import opened Powers
  import opened Bytes

  type Text = seq<byte>

  datatype Variant = XXH32 | XXH64 {
    /** Bytes that one lane takes of a stripe. */
    function Width(): nat {
      if XXH32? then 4 else 8
    }

    function Stripe(): nat {
      4 * Width()
    }

    /** The modulus of the lanes and of the hash. */
    function Modulus(): int {
      if XXH32? then 0x1_0000_0000 else 0x1_0000_0000_0000_0000
    }

    function Prime1(): int {
      if XXH32? then 0x9E3779B1 else 0x9E3779B185EBCA87
    }

    function Prime2(): int {
      if XXH32? then 0x85EBCA77 else 0xC2B2AE3D27D4EB4F
    }

    function Prime5(): int {
      if XXH32? then 0x165667B1 else 0x27D4EB2F165667C5
    }
  }

  /** The mixing that is left open: one round of a lane, joining the lanes, and finishing with the
      bytes after the last stripe. */
  datatype Mixing = Mixing(round: (int, nat) -> int, merge: Lanes -> int, finish: (int, Text) -> int)

  type Lanes = v: seq<int> | |v| == 4 witness [0, 0, 0, 0]

  function Initial(a: Variant, seed: int): Lanes {
    var m := a.Modulus();
    [(seed + a.Prime1() + a.Prime2()) % m, (seed + a.Prime2()) % m, seed, (seed - a.Prime1()) % m]
  }

  /** Four rounds, one for each lane. */
  function TakeStripe(x: Mixing, a: Variant, v: Lanes, s: Text): Lanes
    requires |s| == a.Stripe()
  {
    var w := a.Width();
    [x.round(v[0], Le(s[..w])), x.round(v[1], Le(s[w..2 * w])),
     x.round(v[2], Le(s[2 * w..3 * w])), x.round(v[3], Le(s[3 * w..]))]
  }

  /** The lanes after the stripes that end at position end. */
  ghost function Absorbed(x: Mixing, a: Variant, v: Lanes, data: Text, end: nat): Lanes
    requires end <= |data|
    decreases end
  {
    if end < a.Stripe() then v
    else TakeStripe(x, a, Absorbed(x, a, v, data, end - a.Stripe()), data[end - a.Stripe()..end])
  }

  /** Where the last full stripe of an input of this length ends. */
  function StripesEnd(a: Variant, length: nat): (e: nat)
    ensures e <= length < e + a.Stripe()
  {
    length - length % a.Stripe()
  }

  predicate Whole(a: Variant, end: int) {
    end % a.Stripe() == 0
  }

  /** What hashing data means. */
  ghost function Hash(x: Mixing, a: Variant, seed: int, data: Text): int {
    var end := StripesEnd(a, |data|);
    var start := if |data| >= a.Stripe() then x.merge(Absorbed(x, a, Initial(a, seed), data, end))
                 else (seed + a.Prime5()) % a.Modulus();
    x.finish((start + |data|) % a.Modulus(), data[end..])
  }

  // ---------- stripes of a growing input

  /** More input behind the stripes does not change them. */
  lemma {:induction false} AbsorbedPrefix(x: Mixing, a: Variant, v: Lanes, data: Text, more: Text, end: nat)
    requires end <= |data|
    ensures Absorbed(x, a, v, data, end) == Absorbed(x, a, v, data + more, end)
    decreases end
  {
    if end >= a.Stripe() {
      var i := end - a.Stripe();
      AbsorbedPrefix(x, a, v, data, more, i);
      assert (data + more)[i..end] == data[i..end];
    }
  }

  lemma AbsorbedStep(x: Mixing, a: Variant, v: Lanes, data: Text, end: nat)
    requires end + a.Stripe() <= |data|
    ensures Absorbed(x, a, v, data, end + a.Stripe())
            == TakeStripe(x, a, Absorbed(x, a, v, data, end), data[end..end + a.Stripe()])
  {
  }

  lemma WholeStep(a: Variant, end: nat)
    ensures Whole(a, 0) && (Whole(a, end) ==> Whole(a, end + a.Stripe()))
  {
    match a {
      case XXH32 =>
      case XXH64 =>
    }
  }

  lemma WholeIsEnd(a: Variant, end: nat, length: nat)
    requires Whole(a, end) && end <= length < end + a.Stripe()
    ensures end == StripesEnd(a, length) && length % a.Stripe() == length - end
  {
    DivModSplit(end, a.Stripe());
    DivModUnique(length, a.Stripe(), end / a.Stripe(), length - end);
  }

  // ---------- the lanes in numbers

  /** A lane that starts from start and takes the words at first, first + stripe and so on, n of them. */
  ghost function Lane32(x: Mixing, start: int, data: Text, first: nat, n: nat): int
    requires n == 0 || first + 16 * (n - 1) + 4 <= |data|
  {
    if n == 0 then start else x.round(Lane32(x, start, data, first, n - 1), Four(data, first + 16 * (n - 1)))
  }

  ghost function Lane64(x: Mixing, start: int, data: Text, first: nat, n: nat): int
    requires n == 0 || first + 32 * (n - 1) + 8 <= |data|
  {
    if n == 0 then start else x.round(Lane64(x, start, data, first, n - 1), Eight(data, first + 32 * (n - 1)))
  }

  /** The constants, lanes, words and remainders of both hashes. */
  ghost function LaneHash(x: Mixing, a: Variant, seed: int, data: Text): int {
    if a.XXH32? then
      var n := |data| / 16;
      var lanes := [
        Lane32(x, (seed + 0x9E37_79B1 + 0x85EB_CA77) % 0x1_0000_0000, data, 0, n),
        Lane32(x, (seed + 0x85EB_CA77) % 0x1_0000_0000, data, 4, n),
        Lane32(x, seed, data, 8, n),
        Lane32(x, (seed - 0x9E37_79B1) % 0x1_0000_0000, data, 12, n)];
      var h := if |data| < 16 then seed + 0x1656_67B1 else x.merge(lanes);
      x.finish((h + |data|) % 0x1_0000_0000, data[16 * n..])
    else
      var n := |data| / 32;
      var lanes := [
        Lane64(x, (seed + 0x9E37_79B1_85EB_CA87 + 0xC2B2_AE3D_27D4_EB4F) % 0x1_0000_0000_0000_0000, data, 0, n),
        Lane64(x, (seed + 0xC2B2_AE3D_27D4_EB4F) % 0x1_0000_0000_0000_0000, data, 8, n),
        Lane64(x, seed, data, 16, n),
        Lane64(x, (seed - 0x9E37_79B1_85EB_CA87) % 0x1_0000_0000_0000_0000, data, 24, n)];
      var h := if |data| < 32 then seed + 0x27D4_EB2F_1656_67C5 else x.merge(lanes);
      x.finish((h + |data|) % 0x1_0000_0000_0000_0000, data[32 * n..])
  }

  lemma {:induction false} LanesAre32(x: Mixing, v: Lanes, data: Text, n: nat)
    requires 16 * n <= |data|
    ensures Absorbed(x, XXH32, v, data, 16 * n)
            == [Lane32(x, v[0], data, 0, n), Lane32(x, v[1], data, 4, n),
                Lane32(x, v[2], data, 8, n), Lane32(x, v[3], data, 12, n)]
  {
    hide TakeStripe, Absorbed, Four;
    if n == 0 {
      AbsorbedNothing(x, XXH32, v, data);
    } else {
      LanesAre32(x, v, data, n - 1);
      AbsorbedStep(x, XXH32, v, data, 16 * (n - 1));
      StripeOf32(x, Absorbed(x, XXH32, v, data, 16 * (n - 1)), data, 16 * (n - 1));
    }
  }

  lemma StripeOf32(x: Mixing, v: Lanes, data: Text, p: nat)
    requires p + 16 <= |data|
    ensures TakeStripe(x, XXH32, v, data[p..p + 16])
            == [x.round(v[0], Four(data, p)), x.round(v[1], Four(data, p + 4)),
                x.round(v[2], Four(data, p + 8)), x.round(v[3], Four(data, p + 12))]
  {
    hide Le, Four;
    var s := data[p..p + 16];
    PlaceValues(data, p);
    PlaceValues(data, p + 4);
    PlaceValues(data, p + 8);
    PlaceValues(data, p + 12);
    assert s[..4] == data[p..p + 4] && s[4..8] == data[p + 4..p + 8];
    assert s[8..12] == data[p + 8..p + 12] && s[12..] == data[p + 12..p + 16];
  }

  lemma {:induction false} LanesAre64(x: Mixing, v: Lanes, data: Text, n: nat)
    requires 32 * n <= |data|
    ensures Absorbed(x, XXH64, v, data, 32 * n)
            == [Lane64(x, v[0], data, 0, n), Lane64(x, v[1], data, 8, n),
                Lane64(x, v[2], data, 16, n), Lane64(x, v[3], data, 24, n)]
  {
    hide TakeStripe, Absorbed, Eight;
    if n == 0 {
      AbsorbedNothing(x, XXH64, v, data);
    } else {
      LanesAre64(x, v, data, n - 1);
      AbsorbedStep(x, XXH64, v, data, 32 * (n - 1));
      StripeOf64(x, Absorbed(x, XXH64, v, data, 32 * (n - 1)), data, 32 * (n - 1));
    }
  }

  lemma StripeOf64(x: Mixing, v: Lanes, data: Text, p: nat)
    requires p + 32 <= |data|
    ensures TakeStripe(x, XXH64, v, data[p..p + 32])
            == [x.round(v[0], Eight(data, p)), x.round(v[1], Eight(data, p + 8)),
                x.round(v[2], Eight(data, p + 16)), x.round(v[3], Eight(data, p + 24))]
  {
    hide Le, Eight;
    var s := data[p..p + 32];
    PlaceValues(data, p);
    PlaceValues(data, p + 8);
    PlaceValues(data, p + 16);
    PlaceValues(data, p + 24);
    assert s[..8] == data[p..p + 8] && s[8..16] == data[p + 8..p + 16];
    assert s[16..24] == data[p + 16..p + 24] && s[24..] == data[p + 24..p + 32];
  }

  lemma HashIsLanes32(x: Mixing, seed: int, data: Text)
    ensures Hash(x, XXH32, seed, data) == LaneHash(x, XXH32, seed, data)
  {
    hide TakeStripe, Absorbed, Lane32, Lane64, Four, Eight;
    var n := |data| / 16;
    EndByStripes(|data|, 16);
    assert StripesEnd(XXH32, |data|) == 16 * n;
    LanesAre32(x, Initial(XXH32, seed), data, n);
    ReducedOnce(seed + 0x1656_67B1, |data|, 0x1_0000_0000);
  }

  lemma HashIsLanes64(x: Mixing, seed: int, data: Text)
    ensures Hash(x, XXH64, seed, data) == LaneHash(x, XXH64, seed, data)
  {
    hide TakeStripe, Absorbed, Lane32, Lane64, Four, Eight;
    var n := |data| / 32;
    EndByStripes(|data|, 32);
    assert StripesEnd(XXH64, |data|) == 32 * n;
    LanesAre64(x, Initial(XXH64, seed), data, n);
    ReducedOnce(seed + 0x27D4_EB2F_1656_67C5, |data|, 0x1_0000_0000_0000_0000);
  }

  lemma EndByStripes(length: nat, stripe: nat)
    requires 0 < stripe
    ensures length - length % stripe == stripe * (length / stripe)
  {
    DivModSplit(length, stripe);
  }

  /** Hashing is this. */
  lemma HashIsLanes(x: Mixing, a: Variant, seed: int, data: Text)
    ensures Hash(x, a, seed, data) == LaneHash(x, a, seed, data)
  {
    hide Hash, LaneHash;
    match a {
      case XXH32 => HashIsLanes32(x, seed, data);
      case XXH64 => HashIsLanes64(x, seed, data);
    }
  }

  lemma ReducedOnce(h: int, length: nat, m: int)
    requires 0 < m
    ensures (h % m + length) % m == (h + length) % m
  {
    DivModSplit(h, m);
    ModOfMultiple(h % m + length, h / m, m);
  }

  // ---------- the one-shot form

  /** XXH32_endian_align and XXH64_endian_align */
  method OneShot(x: Mixing, a: Variant, seed: int, input: Text) returns (h: int)
    requires 0 <= seed < a.Modulus()
    ensures h == Hash(x, a, seed, input) == LaneHash(x, a, seed, input)
  {
    hide TakeStripe, Absorbed, Whole, StripesEnd, Variant.Stripe, Initial, LaneHash;
    HashIsLanes(x, a, seed, input);
    var stripe := a.Stripe();
    var p := 0;
    WholeStep(a, 0);
    if |input| >= stripe {
      var limit := |input| - (stripe - 1);
      var v := Initial(a, seed);
      AbsorbedNothing(x, a, v, input);
      while true
        invariant p + stripe <= |input| && Whole(a, p)
        invariant v == Absorbed(x, a, Initial(a, seed), input, p)
        decreases |input| - p
      {
        AbsorbedStep(x, a, Initial(a, seed), input, p);
        WholeStep(a, p);
        v := TakeStripe(x, a, v, input[p..p + stripe]);
        p := p + stripe;
        if !(p < limit) {
          break;
        }
      }
      h := x.merge(v);
    } else {
      h := (seed + a.Prime5()) % a.Modulus();
    }
    h := (h + |input|) % a.Modulus();
    WholeIsEnd(a, p, |input|);
    assert input[p..p + |input| % stripe] == input[p..];
    h := x.finish(h, input[p..p + |input| % stripe]);
  }

  lemma AbsorbedNothing(x: Mixing, a: Variant, v: Lanes, data: Text)
    ensures 0 < a.Stripe() && Absorbed(x, a, v, data, 0) == v
  {
  }

  // ---------- the streaming form

  method CopyInto(dst: array<byte>, at: nat, src: Text)
    requires at + |src| <= dst.Length
    modifies dst
    ensures dst[..at] == old(dst[..at]) && dst[at..at + |src|] == src && dst[at + |src|..] == old(dst[at + |src|..])
  {
    forall i | 0 <= i < |src| {
      dst[at + i] := src[i];
    }
  }

  /** How much input the counters and pointers allow: what a one-shot call could be given. */
  predicate Addressable(length: int) {
    length < 0x1_0000_0000_0000_0000
  }

  lemma BufferGrows(mem: Text, memSize: nat, all: Text, base: nat, input: Text)
    requires |all| == base + |input| && all[base..] == input && memSize <= base && |mem| == memSize + |input|
    requires mem[..memSize] == all[base - memSize..base] && mem[memSize..] == input
    ensures mem == all[|all| - |mem|..]
  {
    assert mem == mem[..memSize] + mem[memSize..];
    assert all[base - memSize..] == all[base - memSize..base] + all[base..];
  }

  /** A filled buffer is the stripe that began before the new input. */
  lemma FilledStripe(mem: Text, all: Text, base: nat, memSize: nat, stripe: nat, input: Text)
    requires memSize <= stripe == |mem| && stripe - memSize <= |input| && memSize <= base
    requires |all| == base + |input| && all[base..] == input
    requires mem[..memSize] == all[base - memSize..base] && mem[memSize..] == input[..stripe - memSize]
    ensures mem == all[base - memSize..base - memSize + stripe]
  {
    assert mem == mem[..memSize] + mem[memSize..];
    assert all[base..][..stripe - memSize] == all[base..base - memSize + stripe];
  }

  /** All full stripes of the input from p on. */
  method TakeStripes(x: Mixing, a: Variant, before: Lanes, input: Text, start: nat, ghost v0: Lanes, ghost all: Text, ghost base: nat)
    returns (v: Lanes, p: nat)
    requires start <= |input| && |all| == base + |input| && all[base..] == input
    requires Whole(a, base + start) && before == Absorbed(x, a, v0, all, base + start)
    ensures start <= p <= |input| < p + a.Stripe() && Whole(a, base + p) && v == Absorbed(x, a, v0, all, base + p)
  {
    hide TakeStripe, Absorbed, Whole, Variant.Stripe;
    var stripe := a.Stripe();
    v, p := before, start;
    AbsorbedNothing(x, a, v, all);
    if p + stripe <= |input| {
      var limit := |input| - stripe;
      while true
        invariant start <= p && p + stripe <= |input| && Whole(a, base + p) && v == Absorbed(x, a, v0, all, base + p)
        decreases |input| - p
      {
        assert input[p..p + stripe] == all[base + p..base + p + stripe];
        AbsorbedStep(x, a, v0, all, base + p);
        WholeStep(a, base + p);
        v := TakeStripe(x, a, v, input[p..p + stripe]);
        p := p + stripe;
        if !(p <= limit) {
          break;
        }
      }
    }
  }

  /** The lanes have taken all full stripes of the input, and the buffer has the rest. */
  ghost predicate Holds(x: Mixing, a: Variant, v0: Lanes, fed: Text, v: Lanes, buffered: Text) {
    && v == Absorbed(x, a, v0, fed, StripesEnd(a, |fed|))
    && buffered == fed[StripesEnd(a, |fed|)..]
  }

  /** The length counter, and for the 32-bit hash the flag for inputs of at least a stripe. */
  predicate Counts(a: Variant, length: nat, totalLen: int, largeLen: bool) {
    && totalLen == length % a.Modulus()
    && (a.XXH32? ==> (largeLen <==> length >= a.Stripe()))
  }

  lemma CountsNothing(a: Variant)
    ensures Counts(a, 0, 0, false)
  {
  }

  /** What is known before an update, seen from the longer input. */
  lemma HeldBefore(x: Mixing, a: Variant, v0: Lanes, fed: Text, v: Lanes, buffered: Text, input: Text)
    requires Holds(x, a, v0, fed, v, buffered)
    ensures |buffered| <= |fed| && |buffered| < a.Stripe() && Whole(a, |fed| - |buffered|)
    ensures v == Absorbed(x, a, v0, fed + input, |fed| - |buffered|)
    ensures buffered == (fed + input)[|fed| - |buffered|..|fed|] && (fed + input)[|fed|..] == input
  {
    hide TakeStripe, Absorbed, Initial;
    EndIsWhole(a, |fed|);
    AbsorbedPrefix(x, a, v0, fed, input, StripesEnd(a, |fed|));
  }

  /** What makes the state right after it. */
  lemma HeldAfter(x: Mixing, a: Variant, v0: Lanes, all: Text, v: Lanes, buffered: Text)
    requires |buffered| <= |all| && |buffered| < a.Stripe() && Whole(a, |all| - |buffered|)
    requires v == Absorbed(x, a, v0, all, |all| - |buffered|) && buffered == all[|all| - |buffered|..]
    ensures Holds(x, a, v0, all, v, buffered)
  {
    hide TakeStripe, Absorbed, Initial, Whole;
    WholeIsEnd(a, |all| - |buffered|, |all|);
  }

  /** The state between updates: nothing of the input is stored but the lanes and a part of a stripe. */
  class StreamState {
    const x: Mixing
    const a: Variant
    const mem: array<byte>
    var v: Lanes
    var memSize: nat
    var totalLen: int
    var largeLen: bool
    ghost const seed: int
    ghost var fed: Text

    ghost predicate Valid()
      reads this, mem
    {
      && mem.Length == a.Stripe() && memSize <= mem.Length
      && 0 <= seed < a.Modulus() && Addressable(|fed|)
      && Holds(x, a, Initial(a, seed), fed, v, mem[..memSize])
      && Counts(a, |fed|, totalLen, largeLen)
    }

    /** XXH32_reset and XXH64_reset */
    constructor (x: Mixing, a: Variant, seed: int)
      requires 0 <= seed < a.Modulus()
      ensures Valid() && fresh(mem) && this.x == x && this.a == a && this.seed == seed && fed == []
    {
      hide TakeStripe, Absorbed, StripesEnd, Initial, Variant.Stripe, Variant.Modulus, Whole, Holds, Counts, Le;
      this.x, this.a, this.seed := x, a, seed;
      mem := new byte[a.Stripe()];
      v := Initial(a, seed);
      memSize, totalLen, largeLen := 0, 0, false;
      fed := [];
      new;
      CountsNothing(a);
      WholeStep(a, 0);
      AbsorbedNothing(x, a, v, []);
      HeldAfter(x, a, Initial(a, seed), [], v, mem[..0]);
    }

    /** XXH32_update and XXH64_update: the state depends only on the concatenation of the inputs. */
    method Update(input: Text)
      requires Valid() && Addressable(|fed| + |input|)
      modifies this, mem
      ensures Valid() && fed == old(fed) + input
    {
      hide TakeStripe, Absorbed, StripesEnd, Initial, Variant.Stripe, Whole, Variant.Modulus, Holds, Counts;
      var stripe := a.Stripe();
      ghost var v0, all, base := Initial(a, seed), fed + input, |fed|;
      HeldBefore(x, a, v0, fed, v, mem[..memSize], input);
      CountersAdvance(a, totalLen, largeLen, |fed|, |input|);
      totalLen := (totalLen + |input|) % a.Modulus();
      largeLen := largeLen || |input| >= stripe || totalLen >= stripe;
      fed := all;
      if memSize + |input| < stripe {
        KeepShort(input, all);
        HeldAfter(x, a, v0, all, v, mem[..memSize]);
        return;
      }
      TakeLong(input, v0, all);
      HeldAfter(x, a, v0, all, v, mem[..memSize]);
    }

    /** An update that does not fill the buffer. */
    method KeepShort(input: Text, ghost all: Text)
      requires memSize + |input| < mem.Length
      requires memSize <= |all| - |input| && all[|all| - |input|..] == input
      requires mem[..memSize] == all[|all| - |input| - memSize..|all| - |input|]
      modifies this`memSize, mem
      ensures memSize == old(memSize) + |input| && mem[..memSize] == all[|all| - memSize..]
    {
      CopyInto(mem, memSize, input);
      BufferGrows(mem[..memSize + |input|], memSize, all, |all| - |input|, input);
      memSize := memSize + |input|;
    }

    /** An update that fills at least one stripe. */
    method TakeLong(input: Text, ghost v0: Lanes, ghost all: Text)
      requires mem.Length == a.Stripe() && memSize < a.Stripe() <= memSize + |input|
      requires memSize <= |all| - |input| && all[|all| - |input|..] == input
      requires Whole(a, |all| - |input| - memSize) && v == Absorbed(x, a, v0, all, |all| - |input| - memSize)
      requires mem[..memSize] == all[|all| - |input| - memSize..|all| - |input|]
      modifies this`v, this`memSize, mem
      ensures memSize <= |all| && memSize < a.Stripe() && Whole(a, |all| - memSize)
      ensures v == Absorbed(x, a, v0, all, |all| - memSize) && mem[..memSize] == all[|all| - memSize..]
    {
      hide TakeStripe, Absorbed, Variant.Stripe, Whole, Le;
      var stripe := a.Stripe();
      ghost var base := |all| - |input|;
      var p := 0;
      if memSize != 0 {
        CopyInto(mem, memSize, input[..stripe - memSize]);
        FilledStripe(mem[..], all, base, memSize, stripe, input);
        AbsorbedStep(x, a, v0, all, base - memSize);
        WholeStep(a, base - memSize);
        v := TakeStripe(x, a, v, mem[..]);
        p := stripe - memSize;
        memSize := 0;
      }
      v, p := TakeStripes(x, a, v, input, p, v0, all, base);
      if p < |input| {
        CopyInto(mem, 0, input[p..]);
        memSize := |input| - p;
      }
      assert mem[..memSize] == input[p..] == all[base + p..];
    }

    /** XXH32_digest and XXH64_digest */
    method Digest() returns (h: int)
      requires Valid()
      ensures h == Hash(x, a, seed, fed) == LaneHash(x, a, seed, fed)
    {
      hide TakeStripe, Absorbed, StripesEnd, LaneHash;
      EndIsWhole(a, |fed|);
      ShortInput(x, a, seed, fed);
      WrappedLength(a, |fed|);
      if (if a.XXH32? then largeLen else totalLen >= a.Stripe()) {
        h := x.merge(v);
      } else {
        h := (v[2] + a.Prime5()) % a.Modulus();
      }
      WrappedSum(h, |fed|, a.Modulus());
      h := (h + totalLen) % a.Modulus();
      var rest := if a.XXH32? then memSize else totalLen % a.Stripe();
      h := x.finish(h, mem[..rest]);
      HashIsLanes(x, a, seed, fed);
    }
  }

  lemma EndIsWhole(a: Variant, length: nat)
    ensures Whole(a, StripesEnd(a, length)) && length % a.Stripe() == length - StripesEnd(a, length)
  {
    match a {
      case XXH32 =>
      case XXH64 =>
    }
  }

  /** The flag remembers what the wrapping 32-bit counter forgets. */
  lemma CountersAdvance(a: Variant, totalLen: int, largeLen: bool, length: nat, more: nat)
    requires Counts(a, length, totalLen, largeLen)
    ensures var total := (totalLen + more) % a.Modulus();
            Counts(a, length + more, total, largeLen || more >= a.Stripe() || total >= a.Stripe())
  {
    WrappedSum(more, length, a.Modulus());
    if length < a.Stripe() && more < a.Stripe() {
      DivModUnique(length + more, a.Modulus(), 0, length + more);
    }
  }

  lemma WrappedSum(h: int, length: nat, m: int)
    requires 0 < m
    ensures (h + length) % m == (h + length % m) % m
  {
    DivModSplit(length, m);
    ModOfMultiple(h + length % m, length / m, m);
  }

  lemma WrappedLength(a: Variant, length: nat)
    requires Addressable(length)
    ensures a.XXH64? ==> length % a.Modulus() == length
  {
  }

  /** Before the first stripe is full, the third lane still is the seed. */
  lemma ShortInput(x: Mixing, a: Variant, seed: int, data: Text)
    ensures |data| < a.Stripe() ==> Absorbed(x, a, Initial(a, seed), data, StripesEnd(a, |data|))[2] == seed
  {
    hide TakeStripe;
  }

  /** The inputs of all updates, joined. */
  function Joined(chunks: seq<Text>): Text {
    if |chunks| == 0 then [] else Joined(chunks[..|chunks| - 1]) + chunks[|chunks| - 1]
  }

  lemma {:induction false} JoinedLength(chunks: seq<Text>, i: nat)
    requires i <= |chunks|
    ensures |Joined(chunks[..i])| <= |Joined(chunks)|
    decreases |chunks|
  {
    if i < |chunks| {
      JoinedLength(chunks[..|chunks| - 1], i);
      assert chunks[..|chunks| - 1][..i] == chunks[..i];
    } else {
      assert chunks[..i] == chunks;
    }
  }

  /** However the input is cut, streaming gives the one-shot hash of the whole. */
  method StreamingIsOneShot(x: Mixing, a: Variant, seed: int, chunks: seq<Text>) returns (streamed: int, oneShot: int)
    requires 0 <= seed < a.Modulus() && Addressable(|Joined(chunks)|)
    ensures streamed == oneShot == Hash(x, a, seed, Joined(chunks)) == LaneHash(x, a, seed, Joined(chunks))
  {
    hide Hash, LaneHash, StreamState.Valid, Variant.Modulus, Variant.Stripe;
    var state := new StreamState(x, a, seed);
    for i := 0 to |chunks|
      invariant fresh(state) && fresh(state.mem) && state.Valid() && state.x == x && state.a == a && state.seed == seed
      invariant state.fed == Joined(chunks[..i])
    {
      assert chunks[..i + 1][..i] == chunks[..i];
      JoinedLength(chunks, i + 1);
      state.Update(chunks[i]);
    }
    assert chunks[..|chunks|] == chunks;
    streamed := state.Digest();
    oneShot := OneShot(x, a, seed, Joined(chunks));
  }
}
