/** The streaming form of XXH3 applies the same stripes, with the same parts of the secret and the same
    scrambles, as the one-shot form, for every way of cutting the input. Accumulating, scrambling,
    merging and the hash of short inputs are parameters. */
module Xxh3Stream {
  import opened Powers
  import opened Bytes
  import opened XxhStream

  const STRIPE: nat := 64
  const BUFFER: nat := 256
  const BUFFER_STRIPES: nat := 4
  const CONSUME_RATE: nat := 8
  const LASTACC_START: nat := 7
  const MIDSIZE_MAX: nat := 240
  const SECRET_SIZE_MIN: nat := 136

  type Acc = seq<int>

  /** accumulate takes a stripe with the secret at an offset, scramble the secret at an offset; merge
      takes the total length, and short hashes what is not longer than MIDSIZE_MAX. */
  datatype Mixing3 = Mixing3(initial: Acc, accumulate: (Acc, Text, nat) -> Acc, scramble: (Acc, nat) -> Acc,
                             merge: (Acc, nat) -> int, short: Text -> int, secretSize: nat) {
    predicate Valid() {
      secretSize >= SECRET_SIZE_MIN
    }

    function SecretLimit(): (n: nat)
      requires Valid()
      ensures LASTACC_START < n
    {
      secretSize - STRIPE
    }

    function StripesPerBlock(): (n: nat)
      requires Valid()
      ensures 9 <= n && (n - 1) * CONSUME_RATE + STRIPE <= secretSize
    {
      SecretLimit() / CONSUME_RATE
    }
  }

  /** The accumulators, and the number of stripes since the last scramble. */
  datatype Progress = Progress(acc: Acc, soFar: nat)

  /** One stripe: the secret moves on with every stripe, and the last stripe of a block scrambles. */
  function TakeOne(m: Mixing3, s: Progress, stripe: Text): Progress
    requires m.Valid()
  {
    var acc := m.accumulate(s.acc, stripe, s.soFar * CONSUME_RATE);
    if s.soFar + 1 == m.StripesPerBlock() then Progress(m.scramble(acc, m.SecretLimit()), 0)
    else Progress(acc, s.soFar + 1)
  }

  /** After all stripes that end at or before end. */
  ghost function Taken(m: Mixing3, data: Text, end: nat): Progress
    requires m.Valid() && end <= |data|
    decreases end
  {
    if end < STRIPE then Progress(m.initial, 0)
    else TakeOne(m, Taken(m, data, end - STRIPE), data[end - STRIPE..end])
  }

  predicate Whole3(end: int) {
    end % STRIPE == 0
  }

  /** How many full stripes leave at least one byte. */
  function FullStripes(n: nat): (k: nat)
    requires 0 < n
    ensures k * STRIPE < n <= k * STRIPE + STRIPE
  {
    (n - 1) / STRIPE
  }

  /** Where the last full stripe that leaves at least one byte ends. */
  function LastEnd(length: nat): (e: nat)
    requires 0 < length
    ensures e < length <= e + STRIPE && Whole3(e)
  {
    FullStripes(length) * STRIPE
  }

  /** What hashing data means: all full stripes but the very last bytes, and then the last 64 bytes
      whatever stripe they began in. */
  ghost function Hash3(m: Mixing3, data: Text): int
    requires m.Valid()
  {
    if |data| > MIDSIZE_MAX then
      var acc := Taken(m, data, LastEnd(|data|)).acc;
      m.merge(m.accumulate(acc, data[|data| - STRIPE..], m.SecretLimit() - LASTACC_START), |data|)
    else m.short(data)
  }

  // ---------- facts about the schedule

  lemma TakenNothing(m: Mixing3, data: Text)
    requires m.Valid()
    ensures Taken(m, data, 0) == Progress(m.initial, 0)
  {
  }

  lemma TakenStep(m: Mixing3, data: Text, end: nat)
    requires m.Valid() && end + STRIPE <= |data|
    ensures Taken(m, data, end + STRIPE) == TakeOne(m, Taken(m, data, end), data[end..end + STRIPE])
  {
  }

  lemma {:induction false} TakenPrefix(m: Mixing3, data: Text, more: Text, end: nat)
    requires m.Valid() && end <= |data|
    ensures Taken(m, data, end) == Taken(m, data + more, end)
    decreases end
  {
    if end >= STRIPE {
      TakenPrefix(m, data, more, end - STRIPE);
      assert (data + more)[end - STRIPE..end] == data[end - STRIPE..end];
    }
  }

  lemma LastEndIsUnique(length: nat, e: nat)
    requires Whole3(e) && e < length <= e + STRIPE
    ensures LastEnd(length) == e
  {
  }

  lemma WholeAdds(p: int, k: int)
    ensures Whole3(0) && (Whole3(p) ==> Whole3(p + k * STRIPE))
  {
  }

  // ---------- the schedule in numbers

  /** Accumulate takes the 64 bytes from from on with the secret at offset; Scramble the secret at offset. */
  datatype Event = Accumulating(from: int, offset: int) | Scrambling(offset: int)

  /** Stripe k, and the scramble behind it where a block of b stripes ends. */
  function StripeEvents(k: nat, secretSize: nat): seq<Event>
    requires secretSize >= 136
  {
    var b := (secretSize - 64) / 8;
    [Accumulating(64 * k, 8 * (k % b))] + if (k + 1) % b == 0 then [Scrambling(secretSize - 64)] else []
  }

  /** The first n stripes. */
  function Events(n: nat, secretSize: nat): seq<Event>
    requires secretSize >= 136
  {
    if n == 0 then [] else Events(n - 1, secretSize) + StripeEvents(n - 1, secretSize)
  }

  /** All events of an input longer than 240 bytes: the n stripes that leave at least one byte, and then
      the last 64 bytes. */
  function AllEvents(n: nat, length: nat, secretSize: nat): seq<Event>
    requires secretSize >= 136
  {
    Events(n, secretSize) + [Accumulating(length - 64, secretSize - 71)]
  }

  predicate Possible(e: Event, length: nat) {
    0 <= e.offset && (e.Accumulating? ==> 0 <= e.from && e.from + 64 <= length)
  }

  function Apply(m: Mixing3, data: Text, acc: Acc, e: Event): Acc
    requires Possible(e, |data|)
  {
    match e
    case Accumulating(from, offset) => m.accumulate(acc, data[from..from + 64], offset)
    case Scrambling(offset) => m.scramble(acc, offset)
  }

  predicate AllPossible(events: seq<Event>, length: nat) {
    forall i :: 0 <= i < |events| ==> Possible(events[i], length)
  }

  /** The accumulators after a list of events. */
  function Fold(m: Mixing3, data: Text, acc: Acc, events: seq<Event>): Acc
    requires AllPossible(events, |data|)
  {
    if |events| == 0 then acc
    else
      assert AllPossible(events[..|events| - 1], |data|);
      Apply(m, data, Fold(m, data, acc, events[..|events| - 1]), events[|events| - 1])
  }

  lemma FoldPush(m: Mixing3, data: Text, acc: Acc, events: seq<Event>, e: Event)
    requires AllPossible(events, |data|) && Possible(e, |data|)
    ensures AllPossible(events + [e], |data|)
    ensures Fold(m, data, acc, events + [e]) == Apply(m, data, Fold(m, data, acc, events), e)
  {
    assert (events + [e])[..|events|] == events;
  }

  /** One stripe more, in events and in the progress of the program. */
  lemma StripeFolds(m: Mixing3, data: Text, acc: Acc, events: seq<Event>, k: nat, before: Progress)
    requires m.Valid() && m.secretSize >= 136 && 64 * (k + 1) <= |data|
    requires AllPossible(events, |data|) && before == Progress(Fold(m, data, acc, events), k % ((m.secretSize - 64) / 8))
    ensures AllPossible(events + StripeEvents(k, m.secretSize), |data|)
    ensures TakeOne(m, before, data[64 * k..64 * (k + 1)])
            == Progress(Fold(m, data, acc, events + StripeEvents(k, m.secretSize)), (k + 1) % ((m.secretSize - 64) / 8))
  {
    hide Fold, AllPossible;
    var size := m.secretSize;
    var b := (size - 64) / 8;
    var first, last := Accumulating(64 * k, 8 * (k % b)), Scrambling(size - 64);
    NextInBlock(k, b);
    FoldPush(m, data, acc, events, first);
    if (k + 1) % b == 0 {
      FoldPush(m, data, acc, events + [first], last);
      assert events + StripeEvents(k, size) == events + [first] + [last];
    } else {
      assert events + StripeEvents(k, size) == events + [first];
    }
  }

  lemma NextInBlock(k: nat, b: nat)
    requires 0 < b
    ensures (k + 1) % b == if k % b + 1 == b then 0 else k % b + 1
  {
    DivModSplit(k, b);
    var q := k / b;
    if k % b + 1 == b {
      MulDistributes(b, q, 1);
      DivModUnique(k + 1, b, q + 1, 0);
    } else {
      DivModUnique(k + 1, b, q, k % b + 1);
    }
  }

  /** The stripes of the program are the events. */
  lemma {:induction false} TakenIsFold(m: Mixing3, data: Text, n: nat)
    requires m.Valid() && m.secretSize >= 136 && 64 * n <= |data|
    ensures AllPossible(Events(n, m.secretSize), |data|)
    ensures Taken(m, data, 64 * n)
            == Progress(Fold(m, data, m.initial, Events(n, m.secretSize)), n % ((m.secretSize - 64) / 8))
  {
    hide Taken, TakeOne, Fold, AllPossible, StripeEvents;
    if n == 0 {
      TakenNothing(m, data);
      NoEvents(m, data);
    } else {
      TakenIsFold(m, data, n - 1);
      TakenStep(m, data, 64 * (n - 1));
      StripeFolds(m, data, m.initial, Events(n - 1, m.secretSize), n - 1, Taken(m, data, 64 * (n - 1)));
    }
  }

  lemma NoEvents(m: Mixing3, data: Text)
    ensures AllPossible([], |data|) && Fold(m, data, m.initial, []) == m.initial
  {
  }

  /** Inputs longer than 240 bytes take exactly these events, whatever the secret. */
  lemma LongIsFold(m: Mixing3, data: Text)
    requires m.Valid() && m.secretSize >= 136 && |data| > 240
    ensures var events := AllEvents((|data| - 1) / 64, |data|, m.secretSize);
            && AllPossible(events, |data|)
            && Fold(m, data, m.initial, events)
               == m.accumulate(Taken(m, data, LastEnd(|data|)).acc, data[|data| - 64..], m.SecretLimit() - LASTACC_START)
  {
    hide Taken, Fold, AllPossible, LastEnd;
    var n := (|data| - 1) / 64;
    LastEndIsUnique(|data|, 64 * n);
    TakenIsFold(m, data, n);
    FoldPush(m, data, m.initial, Events(n, m.secretSize), Accumulating(|data| - 64, m.secretSize - 71));
    assert data[|data| - 64..|data|] == data[|data| - 64..];
  }

  /** What hashing means, by this schedule. */
  ghost function ScheduledHash(m: Mixing3, data: Text): int
    requires m.Valid() && m.secretSize >= 136
  {
    if |data| <= 240 then m.short(data)
    else
      LongIsFold(m, data);
      m.merge(Fold(m, data, m.initial, AllEvents((|data| - 1) / 64, |data|, m.secretSize)), |data|)
  }

  lemma HashIsScheduled(m: Mixing3, data: Text)
    requires m.Valid() && m.secretSize >= 136
    ensures Hash3(m, data) == ScheduledHash(m, data)
  {
    hide Fold, AllEvents, Taken;
    if |data| > 240 {
      LongIsFold(m, data);
    }
  }

  // ---------- accumulating

  /** The state in the middle of a block, or at its end before the scramble. */
  ghost predicate Within(m: Mixing3, data: Text, end: nat, acc: Acc, soFar: nat)
    requires m.Valid() && end <= |data|
  {
    if soFar == m.StripesPerBlock() then Taken(m, data, end) == Progress(m.scramble(acc, m.SecretLimit()), 0)
    else soFar < m.StripesPerBlock() && Taken(m, data, end) == Progress(acc, soFar)
  }

  /** src at position at is data at position end, for n bytes. */
  ghost predicate Same(src: Text, at: nat, data: Text, end: nat, n: nat) {
    at + n <= |src| && end + n <= |data| && src[at..at + n] == data[end..end + n]
  }

  lemma SamePart(src: Text, at: nat, data: Text, end: nat, n: nat, i: nat, k: nat)
    requires Same(src, at, data, end, n) && i + k <= n
    ensures Same(src, at + i, data, end + i, k)
  {
    SliceOfSlice(src, at, at + n, i, i + k);
    SliceOfSlice(data, end, end + n, i, i + k);
  }

  /** XXH3_accumulate: n stripes of one block, with the secret from stripe soFar on. */
  method Accumulate(m: Mixing3, before: Acc, src: Text, at: nat, soFar: nat, n: nat, ghost data: Text, ghost end: nat)
    returns (acc: Acc)
    requires m.Valid() && soFar < m.StripesPerBlock() && soFar + n <= m.StripesPerBlock()
    requires Same(src, at, data, end, n * STRIPE)
    requires Taken(m, data, end) == Progress(before, soFar)
    ensures Within(m, data, end + n * STRIPE, acc, soFar + n)
  {
    hide Taken, Same, Mixing3.StripesPerBlock, Mixing3.SecretLimit;
    acc := before;
    SameBounds(src, at, data, end, n * STRIPE);
    for i := 0 to n
      invariant Within(m, data, end + i * STRIPE, acc, soFar + i)
    {
      var p := at + i * STRIPE;
      SamePart(src, at, data, end, n * STRIPE, i * STRIPE, STRIPE);
      TakenStep(m, data, end + i * STRIPE);
      SameBounds(src, p, data, end + i * STRIPE, STRIPE);
      acc := m.accumulate(acc, src[p..p + STRIPE], (soFar + i) * CONSUME_RATE);
    }
  }

  lemma SameBounds(src: Text, at: nat, data: Text, end: nat, n: nat)
    requires Same(src, at, data, end, n)
    ensures at + n <= |src| && end + n <= |data| && src[at..at + n] == data[end..end + n]
  {
  }

  /** XXH3_consumeStripes: at most one block's worth of stripes, with the scramble where a block ends. */
  method ConsumeStripes(m: Mixing3, before: Acc, soFarBefore: nat, src: Text, at: nat, n: nat, ghost data: Text, ghost end: nat)
    returns (acc: Acc, soFar: nat)
    requires m.Valid() && soFarBefore < m.StripesPerBlock() && n <= m.StripesPerBlock()
    requires Same(src, at, data, end, n * STRIPE)
    requires Taken(m, data, end) == Progress(before, soFarBefore)
    ensures end + n * STRIPE <= |data| && Taken(m, data, end + n * STRIPE) == Progress(acc, soFar)
    ensures soFar < m.StripesPerBlock()
  {
    hide Taken, Same, Mixing3.StripesPerBlock, Mixing3.SecretLimit;
    SameBounds(src, at, data, end, n * STRIPE);
    if m.StripesPerBlock() - soFarBefore <= n {
      var toEnd := m.StripesPerBlock() - soFarBefore;
      var after := n - toEnd;
      SamePart(src, at, data, end, n * STRIPE, 0, toEnd * STRIPE);
      acc := Accumulate(m, before, src, at, soFarBefore, toEnd, data, end);
      acc := m.scramble(acc, m.SecretLimit());
      SamePart(src, at, data, end, n * STRIPE, toEnd * STRIPE, after * STRIPE);
      acc := Accumulate(m, acc, src, at + toEnd * STRIPE, 0, after, data, end + toEnd * STRIPE);
      soFar := after;
    } else {
      acc := Accumulate(m, before, src, at, soFarBefore, n, data, end);
      soFar := soFarBefore + n;
    }
  }

  // ---------- the one-shot form

  /** XXH3_hashLong_internal_loop: block by block, then the stripes of the last block, then the last
      64 bytes. */
  method HashLong(m: Mixing3, input: Text) returns (acc: Acc)
    requires m.Valid() && |input| > MIDSIZE_MAX
    ensures acc == m.accumulate(Taken(m, input, LastEnd(|input|)).acc, input[|input| - STRIPE..], m.SecretLimit() - LASTACC_START)
    ensures m.secretSize >= 136 && |input| > 240
    ensures var events := AllEvents((|input| - 1) / 64, |input|, m.secretSize);
            AllPossible(events, |input|) && acc == Fold(m, input, m.initial, events)
  {
    hide Taken, Same, Mixing3.StripesPerBlock, Mixing3.SecretLimit, LastEnd, Whole3, FullStripes, BlockAt, FullBlocks,
         AllPossible, Fold, AllEvents;
    var perBlock := m.StripesPerBlock();
    var blockLen := perBlock * STRIPE;
    var blocks := FullBlocks(|input|, blockLen);
    BlocksEnd(|input|, blockLen);
    acc := m.initial;
    TakenNothing(m, input);
    WholeAdds(0, 0);
    var p := 0;
    for n := 0 to blocks
      invariant p == BlockAt(n, blockLen) < |input| && Whole3(p)
      invariant Taken(m, input, p) == Progress(acc, 0)
    {
      NextBlock(n, blocks, blockLen);
      SameItself(input, p, perBlock * STRIPE);
      acc := Accumulate(m, acc, input, p, 0, perBlock, input, p);
      acc := m.scramble(acc, m.SecretLimit());
      WholeAdds(p, perBlock);
      p := p + blockLen;
    }
    acc := LastBlock(m, acc, input, p);
    LongIsFold(m, input);
  }

  /** The stripes of the last block, and the last 64 bytes. */
  method LastBlock(m: Mixing3, before: Acc, input: Text, p: nat) returns (acc: Acc)
    requires m.Valid() && |input| > MIDSIZE_MAX && Whole3(p) && p < |input| <= p + m.StripesPerBlock() * STRIPE
    requires Taken(m, input, p) == Progress(before, 0)
    ensures acc == m.accumulate(Taken(m, input, LastEnd(|input|)).acc, input[|input| - STRIPE..], m.SecretLimit() - LASTACC_START)
  {
    hide Taken, Same, Mixing3.StripesPerBlock, LastEnd, Whole3, FullStripes;
    var stripes := FullStripes(|input| - p);
    SameItself(input, p, stripes * STRIPE);
    acc := Accumulate(m, before, input, p, 0, stripes, input, p);
    WholeAdds(p, stripes);
    LastEndIsUnique(|input|, p + stripes * STRIPE);
    acc := m.accumulate(acc, input[|input| - STRIPE..], m.secretSize - STRIPE - LASTACC_START);
  }

  lemma SameItself(data: Text, end: nat, n: nat)
    requires end + n <= |data|
    ensures Same(data, end, data, end, n)
  {
  }

  /** The blocks that are followed by at least one byte. */
  function FullBlocks(length: nat, blockLen: nat): nat
    requires 0 < length && 0 < blockLen
  {
    DivModSplit(length - 1, blockLen);
    (length - 1) / blockLen
  }

  function BlockAt(n: nat, blockLen: nat): nat {
    n * blockLen
  }

  lemma BlocksEnd(length: nat, blockLen: nat)
    requires 0 < length && 0 < blockLen
    ensures BlockAt(0, blockLen) == 0
    ensures var end := BlockAt(FullBlocks(length, blockLen), blockLen); end < length <= end + blockLen
  {
    DivModSplit(length - 1, blockLen);
  }

  lemma NextBlock(n: nat, blocks: nat, blockLen: nat)
    requires n < blocks && 0 < blockLen
    ensures BlockAt(n + 1, blockLen) == BlockAt(n, blockLen) + blockLen <= BlockAt(blocks, blockLen)
  {
    MulMonotonic(blockLen, n + 1, blocks);
  }

  method OneShot3(m: Mixing3, input: Text) returns (h: int)
    requires m.Valid()
    ensures h == Hash3(m, input) && m.secretSize >= 136 && h == ScheduledHash(m, input)
  {
    hide Taken, LastEnd, ScheduledHash;
    HashIsScheduled(m, input);
    if |input| <= MIDSIZE_MAX {
      return m.short(input);
    }
    var acc := HashLong(m, input);
    h := m.merge(acc, |input|);
  }

  // ---------- the pieces of an update

  /** The large branch: to the end of the current block, then whole blocks, then the rest, leaving at
      least one byte and at most a stripe. */
  method TakeBlocks(m: Mixing3, before: Acc, soFarBefore: nat, input: Text, start: nat, ghost data: Text, ghost base: nat)
    returns (acc: Acc, soFar: nat, p: nat)
    requires m.Valid() && soFarBefore < m.StripesPerBlock()
    requires Same(input, 0, data, base, |input|) && |data| == base + |input|
    requires start <= |input| && |input| - start > m.StripesPerBlock() * STRIPE
    requires Taken(m, data, base + start) == Progress(before, soFarBefore)
    ensures start + STRIPE <= p && 0 < |input| - p <= STRIPE && Whole3(p - start)
    ensures Taken(m, data, base + p) == Progress(acc, soFar) && soFar < m.StripesPerBlock()
  {
    hide Taken, Same, Mixing3.StripesPerBlock, Mixing3.SecretLimit, Whole3, FullStripes;
    var perBlock := m.StripesPerBlock();
    var stripes: int := FullStripes(|input| - start);
    var toEnd := perBlock - soFarBefore;
    WholeAdds(0, toEnd);
    SamePart(input, 0, data, base, |input|, start, toEnd * STRIPE);
    acc := Accumulate(m, before, input, start, soFarBefore, toEnd, data, base + start);
    acc := m.scramble(acc, m.SecretLimit());
    p := start + toEnd * STRIPE;
    stripes := stripes - toEnd;
    while stripes >= perBlock
      invariant 0 <= stripes && start + STRIPE <= p && p + stripes * STRIPE < |input| <= p + stripes * STRIPE + STRIPE
      invariant Whole3(p - start)
      invariant Taken(m, data, base + p) == Progress(acc, 0)
      decreases stripes
    {
      SamePart(input, 0, data, base, |input|, p, perBlock * STRIPE);
      acc := Accumulate(m, acc, input, p, 0, perBlock, data, base + p);
      acc := m.scramble(acc, m.SecretLimit());
      WholeAdds(p - start, perBlock);
      p := p + perBlock * STRIPE;
      stripes := stripes - perBlock;
    }
    SamePart(input, 0, data, base, |input|, p, stripes * STRIPE);
    acc := Accumulate(m, acc, input, p, 0, stripes, data, base + p);
    WholeAdds(p - start, stripes);
    p := p + stripes * STRIPE;
    soFar := stripes;
  }

  /** The small branch: a buffer's worth at a time, leaving at least one byte and at most a buffer. */
  method TakeBuffers(m: Mixing3, before: Acc, soFarBefore: nat, input: Text, start: nat, ghost data: Text, ghost base: nat)
    returns (acc: Acc, soFar: nat, p: nat)
    requires m.Valid() && soFarBefore < m.StripesPerBlock()
    requires Same(input, 0, data, base, |input|) && |data| == base + |input|
    requires start <= |input| && |input| - start > BUFFER
    requires Taken(m, data, base + start) == Progress(before, soFarBefore)
    ensures start + BUFFER <= p && 0 < |input| - p <= BUFFER && Whole3(p - start)
    ensures Taken(m, data, base + p) == Progress(acc, soFar) && soFar < m.StripesPerBlock()
  {
    hide Taken, Same, Whole3;
    WholeAdds(0, 0);
    acc, soFar, p := before, soFarBefore, start;
    var limit := |input| - BUFFER;
    while true
      invariant start <= p < limit && Whole3(p - start)
      invariant Taken(m, data, base + p) == Progress(acc, soFar) && soFar < m.StripesPerBlock()
      decreases |input| - p
    {
      SamePart(input, 0, data, base, |input|, p, BUFFER);
      acc, soFar := ConsumeStripes(m, acc, soFar, input, p, BUFFER_STRIPES, data, base + p);
      WholeAdds(p - start, BUFFER_STRIPES);
      p := p + BUFFER;
      if !(p < limit) {
        break;
      }
    }
  }

  // ---------- the streaming form

  /** What a state has of its input: the stripes before the buffered bytes are taken, the buffered bytes
      are at the front of the buffer, and when they are fewer than a stripe, the bytes before them are
      at its end. */
  ghost predicate Held(m: Mixing3, fed: Text, acc: Acc, soFar: nat, buffer: Text, buffered: nat)
    requires m.Valid()
  {
    && |buffer| == BUFFER && buffered <= BUFFER && buffered <= |fed|
    && soFar < m.StripesPerBlock()
    && var taken := |fed| - buffered;
       && Whole3(taken) && Taken(m, fed, taken) == Progress(acc, soFar)
       && buffer[..buffered] == fed[taken..]
       && (taken > 0 ==> 0 < buffered && BUFFER < |fed| && (buffered < STRIPE ==> Catchup(fed, taken, buffer, buffered)))
  }

  /** The missing part of the last 64 bytes is what was taken last. */
  ghost predicate Catchup(fed: Text, taken: nat, buffer: Text, buffered: nat) {
    && |buffer| == BUFFER && buffered < STRIPE <= taken <= |fed|
    && buffer[BUFFER - (STRIPE - buffered)..] == fed[taken - (STRIPE - buffered)..taken]
  }

  class Xxh3State {
    const m: Mixing3
    const buffer: array<byte>
    var acc: Acc
    var bufferedSize: nat
    var nbStripesSoFar: nat
    var totalLen: nat
    ghost var fed: Text

    ghost predicate Valid()
      reads this, buffer
    {
      m.Valid() && buffer.Length == BUFFER && totalLen == |fed|
      && Held(m, fed, acc, nbStripesSoFar, buffer[..], bufferedSize)
    }

    /** XXH3_reset_internal */
    constructor (m: Mixing3)
      requires m.Valid()
      ensures Valid() && fresh(buffer) && this.m == m && fed == []
    {
      hide Taken, Held, Mixing3.Valid, Mixing3.StripesPerBlock, Whole3;
      this.m := m;
      buffer := new byte[BUFFER];
      acc := m.initial;
      bufferedSize, nbStripesSoFar, totalLen := 0, 0, 0;
      fed := [];
      new;
      HeldNothing(m, buffer[..]);
    }

    /** XXH3_update: the state depends only on the concatenation of the inputs. */
    method Update(input: Text)
      requires Valid() && Addressable(|fed| + |input|)
      modifies this, buffer
      ensures Valid() && fed == old(fed) + input
    {
      hide Taken, Held, Mixing3.Valid, Mixing3.StripesPerBlock, Mixing3.SecretLimit, Whole3, Same;
      ghost var data, base := fed + input, |fed|;
      HeldParts(m, fed, acc, nbStripesSoFar, buffer[..], bufferedSize);
      totalLen := totalLen + |input|;
      if bufferedSize + |input| <= BUFFER {
        KeepAll(input);
        fed := data;
        return;
      }
      TakenPrefix(m, fed, input, |fed| - bufferedSize);
      assert data[base - bufferedSize..base] == fed[base - bufferedSize..];
      fed := data;
      var p := 0;
      if bufferedSize != 0 {
        p := FlushBuffer(input, base);
      }
      Ingest(input, p, base);
    }

    /** An update that only fills the buffer. */
    method KeepAll(input: Text)
      requires m.Valid() && buffer.Length == BUFFER && bufferedSize + |input| <= BUFFER
      requires Held(m, fed, acc, nbStripesSoFar, buffer[..], bufferedSize)
      modifies this`bufferedSize, buffer
      ensures Held(m, fed + input, acc, nbStripesSoFar, buffer[..], bufferedSize)
    {
      hide Taken, Held, Mixing3.Valid;
      ghost var before := buffer[..];
      CopyInto(buffer, bufferedSize, input);
      Appended(m, fed, acc, nbStripesSoFar, before, buffer[..], bufferedSize, input);
      bufferedSize := bufferedSize + |input|;
    }

    /** The rest of the input when the buffer is empty, by blocks if it is longer than one. */
    method Ingest(input: Text, start: nat, ghost base: nat)
      requires m.Valid() && buffer.Length == BUFFER && BUFFER < |fed|
      requires |fed| == base + |input| && fed[base..] == input && start < |input|
      requires nbStripesSoFar < m.StripesPerBlock()
      requires Taken(m, fed, base + start) == Progress(acc, nbStripesSoFar) && Whole3(base + start)
      requires BUFFER < |input| - start
               || (STRIPE <= base + start && buffer[BUFFER - STRIPE..] == fed[base + start - STRIPE..base + start])
      modifies this`acc, this`nbStripesSoFar, this`bufferedSize, buffer
      ensures Held(m, fed, acc, nbStripesSoFar, buffer[..], bufferedSize)
    {
      hide Taken, Held, Mixing3.Valid, Mixing3.SecretLimit, Whole3, Same;
      InputIsSame(fed, base, input);
      var p := start;
      if |input| - p > m.StripesPerBlock() * STRIPE {
        acc, nbStripesSoFar, p := TakeBlocks(m, acc, nbStripesSoFar, input, p, fed, base);
        KeepPredecessor(input, p, base);
      } else if |input| - p > BUFFER {
        acc, nbStripesSoFar, p := TakeBuffers(m, acc, nbStripesSoFar, input, p, fed, base);
        KeepPredecessor(input, p, base);
      }
      WholeAdds(0, 0);
      WholeSum(base + start, p - start);
      ghost var before := buffer[..];
      assert before[BUFFER - STRIPE..] == buffer[BUFFER - STRIPE..];
      CopyInto(buffer, 0, input[p..]);
      bufferedSize := |input| - p;
      assert input[p..] == fed[base + p..];
      Rebuffered(m, fed, acc, nbStripesSoFar, before, buffer[..], bufferedSize);
    }

    /** The last stripe that was taken goes to the end of the buffer. */
    method KeepPredecessor(input: Text, p: nat, ghost base: nat)
      requires buffer.Length == BUFFER && STRIPE <= p <= |input|
      requires |fed| == base + |input| && fed[base..] == input
      modifies buffer
      ensures buffer[BUFFER - STRIPE..] == fed[base + p - STRIPE..base + p]
    {
      SliceOfSlice(fed, base, |fed|, p - STRIPE, p);
      assert fed[base..|fed|] == input;
      assert input[p - STRIPE..p] == fed[base + p - STRIPE..base + p];
      CopyInto(buffer, BUFFER - STRIPE, input[p - STRIPE..p]);
      assert buffer[BUFFER - STRIPE..] == buffer[BUFFER - STRIPE..BUFFER];
    }

    /** The buffer is completed from the input and taken as a whole. */
    method FlushBuffer(input: Text, ghost base: nat) returns (p: nat)
      requires m.Valid() && buffer.Length == BUFFER && 0 < bufferedSize <= BUFFER < bufferedSize + |input|
      requires |fed| == base + |input| && fed[base..] == input && bufferedSize <= base
      requires Whole3(base - bufferedSize) && buffer[..bufferedSize] == fed[base - bufferedSize..base]
      requires nbStripesSoFar < m.StripesPerBlock()
      requires Taken(m, fed, base - bufferedSize) == Progress(acc, nbStripesSoFar)
      modifies this`acc, this`nbStripesSoFar, this`bufferedSize, buffer
      ensures p == BUFFER - old(bufferedSize) && bufferedSize == 0
      ensures nbStripesSoFar < m.StripesPerBlock()
      ensures Taken(m, fed, base + p) == Progress(acc, nbStripesSoFar) && Whole3(base + p)
      ensures buffer[BUFFER - STRIPE..] == fed[base + p - STRIPE..base + p]
    {
      hide Taken, Mixing3.Valid, Mixing3.StripesPerBlock, Mixing3.SecretLimit, Whole3;
      ghost var from := base - bufferedSize;
      var loadSize := BUFFER - bufferedSize;
      CopyInto(buffer, bufferedSize, input[..loadSize]);
      FilledStripe(buffer[..], fed, base, bufferedSize, BUFFER, input);
      assert Same(buffer[..], 0, fed, from, BUFFER);
      p := loadSize;
      acc, nbStripesSoFar := ConsumeStripes(m, acc, nbStripesSoFar, buffer[..], 0, BUFFER_STRIPES, fed, from);
      WholeAdds(from, BUFFER_STRIPES);
      SliceOfSlice(fed, from, from + BUFFER, BUFFER - STRIPE, BUFFER);
      bufferedSize := 0;
    }

    /** XXH3_64bits_digest: the one-shot hash of all input so far; the state is not changed. */
    method Digest() returns (h: int)
      requires Valid()
      ensures h == Hash3(m, fed) && m.Valid() && m.secretSize >= 136 && h == ScheduledHash(m, fed)
    {
      hide ScheduledHash, Taken, Held, Mixing3.StripesPerBlock, Mixing3.SecretLimit, Whole3, LastEnd, FullStripes;
      HashIsScheduled(m, fed);
      if totalLen > MIDSIZE_MAX {
        var last := DigestLong();
        return m.merge(last, totalLen);
      }
      ShortIsBuffered(m, fed, acc, nbStripesSoFar, buffer[..], bufferedSize);
      h := m.short(buffer[..totalLen]);
    }

    /** The stripes in the buffer, and the last 64 bytes of it. */
    method DigestBuffer() returns (last: Acc)
      requires Valid() && bufferedSize >= STRIPE
      ensures last == m.accumulate(Taken(m, fed, LastEnd(|fed|)).acc, fed[|fed| - STRIPE..], m.SecretLimit() - LASTACC_START)
    {
      hide Taken, Held, Same, Mixing3.StripesPerBlock, Mixing3.SecretLimit, Whole3, LastEnd, FullStripes;
      ghost var taken := |fed| - bufferedSize;
      HeldParts(m, fed, acc, nbStripesSoFar, buffer[..], bufferedSize);
      var nbStripes := FullStripes(bufferedSize);
      BufferIsSame(buffer[..], fed, bufferedSize, nbStripes * STRIPE);
      var now, soFar := ConsumeStripes(m, acc, nbStripesSoFar, buffer[..], 0, nbStripes, fed, taken);
      WholeAdds(taken, nbStripes);
      LastEndIsUnique(|fed|, taken + nbStripes * STRIPE);
      SliceOfSlice(buffer[..], 0, bufferedSize, bufferedSize - STRIPE, bufferedSize);
      SliceOfSlice(fed, taken, |fed|, bufferedSize - STRIPE, bufferedSize);
      last := m.accumulate(now, buffer[bufferedSize - STRIPE..bufferedSize], m.SecretLimit() - LASTACC_START);
    }

    /** XXH3_digest_long, on a copy of the accumulators. */
    method DigestLong() returns (last: Acc)
      requires Valid() && totalLen > MIDSIZE_MAX
      ensures last == m.accumulate(Taken(m, fed, LastEnd(|fed|)).acc, fed[|fed| - STRIPE..], m.SecretLimit() - LASTACC_START)
    {
      hide Taken, Held, Same, Mixing3.StripesPerBlock, Mixing3.SecretLimit, Whole3, LastEnd, FullStripes;
      ghost var taken := |fed| - bufferedSize;
      HeldParts(m, fed, acc, nbStripesSoFar, buffer[..], bufferedSize);
      if bufferedSize >= STRIPE {
        last := DigestBuffer();
      } else {
        var catchupSize := STRIPE - bufferedSize;
        LastStripe(m, fed, acc, nbStripesSoFar, buffer[..], bufferedSize);
        LastEndIsUnique(|fed|, taken);
        last := m.accumulate(acc, buffer[BUFFER - catchupSize..] + buffer[..bufferedSize], m.SecretLimit() - LASTACC_START);
      }
    }
  }

  lemma HeldNothing(m: Mixing3, buffer: Text)
    requires m.Valid() && |buffer| == BUFFER
    ensures Held(m, [], m.initial, 0, buffer, 0)
  {
  }

  lemma HeldParts(m: Mixing3, fed: Text, acc: Acc, soFar: nat, buffer: Text, buffered: nat)
    requires m.Valid() && Held(m, fed, acc, soFar, buffer, buffered)
    ensures buffered <= BUFFER && buffered <= |fed| && soFar < m.StripesPerBlock()
    ensures Whole3(|fed| - buffered) && Taken(m, fed, |fed| - buffered) == Progress(acc, soFar)
    ensures buffer[..buffered] == fed[|fed| - buffered..]
    ensures buffered == 0 ==> |fed| == 0
  {
    hide Taken, Whole3;
  }

  lemma WholeSum(a: nat, b: nat)
    requires Whole3(a) && Whole3(b)
    ensures Whole3(a + b)
  {
  }

  lemma InputIsSame(data: Text, base: nat, input: Text)
    requires |data| == base + |input| && data[base..] == input
    ensures Same(input, 0, data, base, |input|)
  {
  }

  /** An update that only fills the buffer. */
  lemma Appended(m: Mixing3, fed: Text, acc: Acc, soFar: nat, before: Text, after: Text, buffered: nat, input: Text)
    requires m.Valid() && Held(m, fed, acc, soFar, before, buffered) && buffered + |input| <= BUFFER == |after|
    requires after[..buffered] == before[..buffered] && after[buffered..buffered + |input|] == input
    requires after[buffered + |input|..] == before[buffered + |input|..]
    ensures Held(m, fed + input, acc, soFar, after, buffered + |input|)
  {
    hide Taken, Whole3, Catchup, Mixing3.StripesPerBlock, Mixing3.SecretLimit;
    var taken, all, now := |fed| - buffered, fed + input, buffered + |input|;
    TakenPrefix(m, fed, input, taken);
    BufferJoined(fed, before, after, buffered, input);
    if taken > 0 && now < STRIPE {
      CatchupKept(fed, taken, before, after, buffered, now);
      CatchupPrefix(fed, input, taken, after, now);
    }
  }

  lemma BufferJoined(fed: Text, before: Text, after: Text, buffered: nat, input: Text)
    requires buffered <= |fed| && buffered <= |before| && before[..buffered] == fed[|fed| - buffered..]
    requires buffered + |input| <= |after|
    requires after[..buffered] == before[..buffered] && after[buffered..buffered + |input|] == input
    ensures after[..buffered + |input|] == (fed + input)[|fed| - buffered..]
  {
    assert after[..buffered + |input|] == after[..buffered] + after[buffered..buffered + |input|];
    assert (fed + input)[|fed| - buffered..] == fed[|fed| - buffered..] + input;
  }

  lemma CatchupPrefix(fed: Text, more: Text, taken: nat, buffer: Text, buffered: nat)
    requires Catchup(fed, taken, buffer, buffered)
    ensures Catchup(fed + more, taken, buffer, buffered)
  {
    SliceOfConcat(fed, more, taken - (STRIPE - buffered), taken);
  }

  /** A suffix of equal suffixes. */
  lemma SuffixOfSuffix(a: Text, b: Text, i: nat, j: nat, k: nat)
    requires i <= |a| && j <= |b| && a[i..] == b[j..] && i + k <= |a|
    ensures a[i + k..] == b[j + k..]
  {
    assert a[i..][k..] == b[j..][k..];
  }

  lemma CatchupKept(fed: Text, taken: nat, before: Text, after: Text, buffered: nat, now: nat)
    requires Catchup(fed, taken, before, buffered) && buffered <= now < STRIPE && |after| == BUFFER
    requires after[now..] == before[now..]
    ensures Catchup(fed, taken, after, now)
  {
    var i, k := BUFFER - (STRIPE - now), now - buffered;
    SuffixOfSuffix(after, before, now, now, i - now);
    var taken', before' := fed[taken - (STRIPE - buffered)..taken], before[BUFFER - (STRIPE - buffered)..];
    assert before[i..] == before'[k..] && taken'[k..] == fed[taken - (STRIPE - now)..taken];
  }

  /** The rest of the input behind the stripes that were taken. */
  lemma Rebuffered(m: Mixing3, data: Text, acc: Acc, soFar: nat, before: Text, after: Text, buffered: nat)
    requires m.Valid() && |before| == |after| == BUFFER && 0 < buffered <= BUFFER < |data|
    requires var taken := |data| - buffered;
             && STRIPE <= taken && Whole3(taken) && Taken(m, data, taken) == Progress(acc, soFar)
             && soFar < m.StripesPerBlock()
             && before[BUFFER - STRIPE..] == data[taken - STRIPE..taken]
             && after[..buffered] == data[taken..]
    requires after[buffered..] == before[buffered..]
    ensures Held(m, data, acc, soFar, after, buffered)
  {
    hide Taken, Whole3, Catchup, Mixing3.StripesPerBlock, Mixing3.SecretLimit;
    var taken := |data| - buffered;
    if buffered < STRIPE {
      CatchupWhole(data, taken, before);
      CatchupKept(data, taken, before, after, 0, buffered);
    }
  }

  lemma CatchupWhole(data: Text, taken: nat, buffer: Text)
    requires STRIPE <= taken <= |data| && |buffer| == BUFFER && buffer[BUFFER - STRIPE..] == data[taken - STRIPE..taken]
    ensures Catchup(data, taken, buffer, 0)
  {
  }

  lemma ShortIsBuffered(m: Mixing3, fed: Text, acc: Acc, soFar: nat, buffer: Text, buffered: nat)
    requires m.Valid() && Held(m, fed, acc, soFar, buffer, buffered) && |fed| <= MIDSIZE_MAX
    ensures buffered == |fed| && buffer[..|fed|] == fed
  {
    hide Taken, Whole3;
  }

  lemma BufferIsSame(buffer: Text, fed: Text, buffered: nat, n: nat)
    requires n <= buffered <= |buffer| && buffered <= |fed| && buffer[..buffered] == fed[|fed| - buffered..]
    ensures Same(buffer, 0, fed, |fed| - buffered, n)
  {
    var t := |fed| - buffered;
    assert buffer[..buffered][..n] == buffer[0..n];
    assert fed[t..][..n] == fed[t..t + n];
  }

  /** The last 64 bytes, half of which were taken before. */
  lemma LastStripe(m: Mixing3, fed: Text, acc: Acc, soFar: nat, buffer: Text, buffered: nat)
    requires m.Valid() && Held(m, fed, acc, soFar, buffer, buffered) && buffered < STRIPE && |fed| > MIDSIZE_MAX
    ensures 0 < buffered && buffer[BUFFER - (STRIPE - buffered)..] + buffer[..buffered] == fed[|fed| - STRIPE..]
  {
    hide Taken, Whole3;
    var taken := |fed| - buffered;
    assert Catchup(fed, taken, buffer, buffered);
    assert fed[taken - (STRIPE - buffered)..] == fed[taken - (STRIPE - buffered)..taken] + fed[taken..];
  }

  /** However the input is cut, streaming gives the one-shot hash of the whole. */
  method StreamingIsOneShot3(m: Mixing3, chunks: seq<Text>) returns (streamed: int, oneShot: int)
    requires m.Valid() && Addressable(|Joined(chunks)|)
    ensures streamed == oneShot == Hash3(m, Joined(chunks))
    ensures m.secretSize >= 136 && streamed == ScheduledHash(m, Joined(chunks))
  {
    hide ScheduledHash, Hash3, Xxh3State.Valid, Mixing3.Valid;
    var state := new Xxh3State(m);
    for i := 0 to |chunks|
      invariant fresh(state) && fresh(state.buffer) && state.Valid() && state.m == m
      invariant state.fed == Joined(chunks[..i])
    {
      assert chunks[..i + 1][..i] == chunks[..i];
      JoinedLength(chunks, i + 1);
      state.Update(chunks[i]);
    }
    assert chunks[..|chunks|] == chunks;
    streamed := state.Digest();
    oneShot := OneShot3(m, Joined(chunks));
  }
}
