/** What an insertion writes, byte for byte and slot by slot: the positions and numbers of the file
    format. */
module ImageFormat {
  import opened Powers
  import opened Bits
  import opened Bytes
  import opened Records
  import opened ProbeTable
  import opened CacheModel
  import CacheLife
  import Trailer

  // ---------- records

  predicate FirstAt(values: Trailer.Values, i: nat, value: seq<byte>) {
    i < |values| && values[i] == value && value !in values[..i]
  }

  /** What stands behind the key, and the five flag bits that tell how: the value, or in one or two
      bytes the index of its first occurrence in the table. */
  ghost predicate PayloadIs(flags: int, payload: seq<byte>, value: seq<byte>, values: Trailer.Values) {
    if value !in values then flags == 0 && payload == value
    else exists i: nat :: FirstAt(values, i, value) && IndexIs(flags, payload, i)
  }

  predicate IndexIs(flags: int, payload: seq<byte>, i: nat) {
    if i < 256 then flags == 16 && |payload| == 1 && payload[0] as int == i
    else flags == 1 && |payload| == 2 && Two(payload, 0) == i
  }

  /** Two bytes for the size of the key, a byte with flags and type, three bytes for the size of the
      value, the key, and what stands for the value. */
  ghost predicate RecordIs(record: seq<byte>, key: Key, kind: nat, value: seq<byte>, values: Trailer.Values) {
    && |record| >= 6 + |key|
    && Two(record, 0) == |key|
    && record[2] as int / 32 == kind
    && record[3] as int + 0x100 * record[4] as int + 0x1_0000 * record[5] as int == |value| % 0x100_0000
    && record[6..6 + |key|] == key
    && PayloadIs(record[2] as int % 32, record[6 + |key|..], value, values)
  }

  lemma HeaderBytes(e: Entry)
    requires Encodable(e)
    ensures var r := Encode(e);
            && Two(r, 0) == |e.key|
            && r[2] as int % 32 == DedupIndex(e.stored) && r[2] as int / 32 == e.kind
            && r[3] as int + 0x100 * r[4] as int + 0x1_0000 * r[5] as int == SizeField(e.stored)
            && r[6..6 + |e.key|] == e.key && r[6 + |e.key|..] == Payload(e.stored)
  {
    hide Le, ToLe, Encode, Two, DedupIndex, SizeField;
    var r := Encode(e);
    assert r[0..|r|] == r;
    DecodeOfEncode(r, 0, e);
    PlaceValues(r, 0);
    PlaceValues(r, 2);
    SplitInfo(r[2], r[3], r[4], r[5]);
  }

  lemma SplitInfo(a: byte, b: byte, c: byte, d: byte)
    ensures var info := a as int + 0x100 * b as int + 0x1_0000 * c as int + 0x100_0000 * d as int;
            && info % 32 == a as int % 32 && info / 32 % 8 == a as int / 32
            && info / 256 == b as int + 0x100 * c as int + 0x1_0000 * d as int
  {
    SplitAt(a as int, b as int + 0x100 * c as int + 0x1_0000 * d as int);
  }

  lemma SplitAt(a: int, rest: int)
    requires 0 <= a < 256 && 0 <= rest
    ensures var info := a + 256 * rest;
            info % 32 == a % 32 && info / 32 % 8 == a / 32 && info / 256 == rest
  {
    var info, high := a + 256 * rest, a / 32 + 8 * rest;
    DivModUnique(info, 256, rest, a);
    DivModUnique(info, 32, high, a % 32);
    DivModUnique(high, 8, rest, a / 32);
  }

  lemma FirstIndex(values: Trailer.Values, value: seq<byte>)
    ensures value in values ==> IndexOf(values, value).Some? && FirstAt(values, IndexOf(values, value).value, value)
    ensures value !in values ==> IndexOf(values, value).None?
  {
  }

  lemma RecordBytes(key: Key, kind: nat, value: seq<byte>, values: Trailer.Values)
    requires Encodable(Entry(key, kind, Store(values, value))) && |values| <= 65536
    ensures RecordIs(Encode(Entry(key, kind, Store(values, value))), key, kind, value, values)
  {
    hide Encode, Two, ToLe, IndexOf, FirstAt;
    var e := Entry(key, kind, Store(values, value));
    HeaderBytes(e);
    FirstIndex(values, value);
    if value in values {
      var i := IndexOf(values, value).value;
      IndexBytes(i);
      assert IndexIs(DedupIndex(e.stored), Payload(e.stored), i);
    }
  }

  lemma IndexBytes(i: nat)
    ensures i < 0x100 ==> ToLe(i, 1) == [i]
    ensures i < 0x1_0000 ==> Two(ToLe(i, 2), 0) == i
  {
    hide *;
    BytesOf256();
    if i < 0x100 {
      LeOfToLe(i, 1);
      OneByte(ToLe(i, 1));
    }
    if i < 0x1_0000 {
      LeOfToLe(i, 2);
      PlaceValues(ToLe(i, 2), 0);
      assert ToLe(i, 2)[0..2] == ToLe(i, 2);
    }
  }

  lemma BytesOf256()
    ensures Pow(256, 1) == 0x100 && Pow(256, 2) == 0x1_0000
  {
  }

  lemma OneByte(t: seq<byte>)
    requires |t| == 1
    ensures Le(t) == t[0] as int
  {
    LeStep(t);
  }

  /** Reading any record, by position: the fifth flag bit takes precedence over the first, and neither
      counts without a table. */
  lemma ReadByPosition(heap: seq<byte>, pos: nat, values: Trailer.Values)
    requires pos + 6 <= |heap|
    ensures var flags, kind := heap[pos + 2] as int % 32, heap[pos + 2] as int / 32;
            var size := heap[pos + 3] as int + 0x100 * heap[pos + 4] as int + 0x1_0000 * heap[pos + 5] as int;
            var at := pos + 6 + Two(heap, pos);
            ReadRecord(heap, pos, values) ==
            if values != [] && flags >= 16 then
              if at < |heap| && heap[at] as int < |values| then Some(Found(kind, values[heap[at]])) else None
            else if values != [] && flags % 2 == 1 then
              if at + 1 < |heap| && Two(heap, at) < |values| then Some(Found(kind, values[Two(heap, at)])) else None
            else if at + size <= |heap| then Some(Found(kind, heap[at..at + size]))
            else None
  {
    hide Le, Two, Four, And;
    PlaceValues(heap, pos);
    PlaceValues(heap, pos + 2);
    InfoByPlaces(heap, pos + 2);
    FlagsByValue(heap[pos + 2] as int % 32);
    var at := pos + 6 + Two(heap, pos);
    PlaceValues(heap, at);
    if at < |heap| {
      OneByte(heap[at..at + 1]);
    }
  }

  lemma InfoByPlaces(heap: seq<byte>, p: nat)
    requires p + 4 <= |heap|
    ensures var info := Four(heap, p);
            && info % 32 == heap[p] as int % 32 && info / 32 % 8 == heap[p] as int / 32
            && info / 256 == heap[p + 1] as int + 0x100 * heap[p + 2] as int + 0x1_0000 * heap[p + 3] as int
  {
    SplitInfo(heap[p], heap[p + 1], heap[p + 2], heap[p + 3]);
  }

  lemma FlagsByValue(flags: nat)
    requires flags < 32
    ensures And(flags, DEDUP_FLAG) != 0 <==> flags >= 16
    ensures And(flags, DEDUP_EXTENDED_FLAG) != 0 <==> flags % 2 == 1
  {
    assert Pow2(4) == 16 && Pow2(1) == 2;
    DivModSplit(flags, 16);
    AndSplit(4, flags % 16, flags / 16, 0, 1, flags, 16);
    AndZero(flags % 16);
    AndLowMask(flags, 1);
    assert And(0, 1) == 0 && And(1, 1) == 1;
  }

  // ---------- slots

  /** The low bits of a slot are the place of its record, counted from 8 at the first, and the others
      are those of the hash. */
  predicate SlotIs(heap: seq<byte>, i: nat, offsetBits: nat, offset: int, h: nat)
    requires 8 * i + 8 <= |heap| && 0 < Pow2(offsetBits)
  {
    && Eight(heap, 8 * i) % Pow2(offsetBits) == offset
    && Eight(heap, 8 * i) / Pow2(offsetBits) == h / Pow2(offsetBits)
  }

  predicate SlotIsEmpty(heap: seq<byte>, i: nat, offsetBits: nat)
    requires 8 * i + 8 <= |heap| && 0 < Pow2(offsetBits)
  {
    Eight(heap, 8 * i) % Pow2(offsetBits) == 0
  }

  /** The bytes of the slots say which of them are empty. */
  lemma EmptySlots(s: State, hash: Hasher, i: nat)
    requires Inv(s, hash) && i < s.config.n
    ensures 8 * i + 8 <= |s.heap| && 0 < Pow2(s.config.offsetBits)
    ensures s.table[i].None? <==> SlotIsEmpty(s.heap, i, s.config.offsetBits)
  {
    hide And, Le, Eight, Encode, WellFormed, WithinCollisions, AllResolvable, OffsetMask, HashcodeMask;
    assert SlotMatches(s.heap, s.config.n, s.config.offsetBits, hash, i, s.table[i]);
    PlaceValues(s.heap, 8 * i);
    MaskValues(s.config.offsetBits);
    AndLowMask(SlotWord(s.heap, i), s.config.offsetBits);
  }

  lemma PackedBytes(heap: seq<byte>, i: nat, h: word, offset: nat, offsetBits: nat)
    requires 8 * i + 8 <= |heap| && MIN_OFFSET_BITS <= offsetBits <= MAX_OFFSET_BITS && offset < Pow2(offsetBits)
    requires SlotWord(heap, i) == PackSlot(h, offset, offsetBits)
    ensures 0 < Pow2(offsetBits) && SlotIs(heap, i, offsetBits, offset, h)
  {
    hide And, Le, Eight, OffsetMask, HashcodeMask, PackSlot;
    var slot, p := SlotWord(heap, i), Pow2(offsetBits);
    PackedSlotUnpacks(h, offset, offsetBits);
    PlaceValues(heap, 8 * i);
    MaskValues(offsetBits);
    TwoToThe64();
    AndLowMask(slot, offsetBits);
    AndHighMask(slot, offsetBits, 64);
    AndHighMask(h, offsetBits, 64);
    SameQuotient(slot, h, p);
  }

  lemma SameQuotient(a: nat, b: nat, p: nat)
    requires 0 < p && a - a % p == b - b % p
    ensures a / p == b / p
  {
    DivModSplit(a, p);
    DivModSplit(b, p);
    DivModUnique(a, p, b / p, a % p);
  }

  // ---------- insertions

  /** What an insertion answers, and what is different afterwards, in positions and numbers. */
  ghost predicate PutIs(s: State, s': State, o: Outcome, h: nat, key: Key, kind: nat, value: seq<byte>)
    requires 0 < s.config.n == |s.table| && 8 * s.config.n <= |s.heap| && 0 < Pow2(s.config.offsetBits)
  {
    var n, bits := s.config.n, s.config.offsetBits;
    var full, known := s.entries >= s.config.maxEntries, HasKey(s.table, key);
    var longValue := |value| > 16777215 && value !in s.values;
    var far := |s.heap| - 8 * n + 8 >= Pow2(bits);
    match o
    case KeySpaceFull => full && s' == s
    case KeyExists(c) => !full && known && s' == s && 1 <= c && SearchEnds(s.table, h, c - 1, key)
    case KeyTooLong => !full && !known && |key| > 65535 && s' == s
    case ValueTooLong => !full && !known && |key| <= 65535 && longValue && s' == s
    case OffsetTooShort =>
      && !full && !known && |key| <= 65535 && !longValue && far
      && s'.table == s.table && s'.entries == s.entries && s'.maxCollisions == s.maxCollisions
      && |s.heap| <= |s'.heap| && s'.heap[..|s.heap|] == s.heap
      && RecordIs(s'.heap[|s.heap|..], key, kind, value, s.values)
    case Inserted(d) =>
      && !full && !known && |key| <= 65535 && !longValue && !far
      && SearchEnds(s.table, h, d, key)
      && s'.entries == s.entries + 1 && s'.maxCollisions == (if d > s.maxCollisions then d else s.maxCollisions)
      && var i := (h + d) % n;
      && 0 <= i < n && Fills(s, s', i, h, key)
      && RecordIs(s'.heap[|s.heap|..], key, kind, value, s.values)
  }

  /** Slot i was empty and leads to the end of the old heap; nothing else of it is changed. */
  ghost predicate Fills(s: State, s': State, i: nat, h: nat, key: Key)
    requires i < s.config.n == |s.table| && 8 * s.config.n <= |s.heap| && 0 < Pow2(s.config.offsetBits)
  {
    && SlotIsEmpty(s.heap, i, s.config.offsetBits)
    && |s.heap| <= |s'.heap|
    && s'.heap[..8 * i] == s.heap[..8 * i] && s'.heap[8 * i + 8..|s.heap|] == s.heap[8 * i + 8..]
    && SlotIs(s'.heap, i, s.config.offsetBits, |s.heap| - 8 * s.config.n + 8, h)
    && |s'.table| == |s.table| && s'.table[i].Some? && s'.table[i].value.key == key
    && forall j :: 0 <= j < |s.table| && j != i ==> s'.table[j] == s.table[j]
  }

  /** A record that can be addressed fills its slot. */
  lemma PlacedFills(s: State, hash: Hasher, e: Entry, i: nat, d: nat)
    requires Inv(s, hash) && i < s.config.n && s.table[i].None? && CacheLife.OffsetFits(s)
    ensures 0 < Pow2(s.config.offsetBits) && 8 * s.config.n <= |s.heap| && |s.table| == s.config.n
    ensures var s' := Placed(s, hash, e, i, d);
            Fills(s, s', i, hash(e.key), e.key) && s'.heap[|s.heap|..] == Encode(e)
  {
    hide And, Le, Eight, Encode, WellFormed, WithinCollisions, AllResolvable, PackSlot, SlotMatches, SlotIs, SlotIsEmpty, Count,
         WriteSlot, SlotWord;
    var n, bits := s.config.n, s.config.offsetBits;
    var s', offset := Placed(s, hash, e, i, d), |s.heap| - KeyspaceSizeOffset(n);
    var slot := PackSlot(hash(e.key), offset, bits);
    EmptySlots(s, hash, i);
    PackedSlotUnpacks(hash(e.key), offset, bits);
    WriteSlotReads(s.heap + Encode(e), i, slot);
    PackedBytes(s'.heap, i, hash(e.key), offset, bits);
    SlotAndRecord(s.heap, Encode(e), i, slot);
  }

  lemma SlotAndRecord(heap: seq<byte>, record: seq<byte>, i: nat, slot: nat)
    requires 8 * i + 8 <= |heap|
    ensures var h := WriteSlot(heap + record, i, slot);
            && |h| == |heap| + |record|
            && h[..8 * i] == heap[..8 * i] && h[8 * i + 8..|heap|] == heap[8 * i + 8..] && h[|heap|..] == record
  {
    hide ToLe;
  }

  lemma InsertWrites(s: State, hash: Hasher, e: Entry, i: nat, d: nat)
    requires Inv(s, hash) && i < s.config.n && s.table[i].None?
    ensures 0 < Pow2(s.config.offsetBits) && 8 * s.config.n <= |s.heap| && |s.table| == s.config.n
    ensures var (s', o) := Insert(s, hash, e, i, d);
            && |s.heap| <= |s'.heap| && s'.heap[|s.heap|..] == Encode(e)
            && if CacheLife.OffsetFits(s) then
                 && o == Inserted(d) && s'.entries == s.entries + 1
                 && s'.maxCollisions == (if d > s.maxCollisions then d else s.maxCollisions)
                 && Fills(s, s', i, hash(e.key), e.key)
               else
                 && o == OffsetTooShort && s'.table == s.table && s'.entries == s.entries
                 && s'.maxCollisions == s.maxCollisions && s'.heap[..|s.heap|] == s.heap
  {
    hide And, Encode, WellFormed, WithinCollisions, AllResolvable, PackSlot, SlotMatches, Fills, Count, WriteSlot;
    CacheLife.OffsetCheck(s, hash);
    EmptySlots(s, hash, i);
    if CacheLife.OffsetFits(s) {
      PlacedFills(s, hash, e, i, d);
    }
  }

  /** The outcomes of a new key. */
  lemma NewPutWrites(s: State, hash: Hasher, key: Key, kind: nat, value: seq<byte>, i: nat, d: nat)
    requires Inv(s, hash) && kind < 8 && s.entries < s.config.maxEntries && !HasKey(s.table, key)
    requires SearchEnds(s.table, hash(key), d, key) && i == (hash(key) + d) % s.config.n && s.table[i].None?
    ensures 0 < s.config.n == |s.table| && 8 * s.config.n <= |s.heap| && 0 < Pow2(s.config.offsetBits)
    ensures var (s', o) := PutNew(s, hash, key, kind, value, i, d); PutIs(s, s', o, hash(key), key, kind, value)
  {
    hide SlotMatches, WellFormed, WithinCollisions, AllResolvable, RecordIs, SearchEnds, Insert, Fills, HasKey, Count, IndexOf, Encode;
    EmptySlots(s, hash, i);
    FirstIndex(s.values, value);
    if |key| <= 65535 && (|value| <= 16777215 || value in s.values) {
      RecordBytes(key, kind, value, s.values);
      InsertWrites(s, hash, Entry(key, kind, Store(s.values, value)), i, d);
    }
  }

  /** Every insertion with every outcome. */
  lemma PutWrites(s: State, hash: Hasher, key: Key, kind: nat, value: seq<byte>)
    requires Inv(s, hash) && kind < 8
    ensures 0 < s.config.n == |s.table| && 8 * s.config.n <= |s.heap| && 0 < Pow2(s.config.offsetBits)
    ensures PutIs(s, Put(s, hash, key, kind, value).0, Put(s, hash, key, kind, value).1, hash(key), key, kind, value)
  {
    hide Put, PutNew, SlotMatches, WellFormed, WithinCollisions, AllResolvable, StopDistance, RecordIs, SearchEnds, Fills, HasKey,
         Home, SlotFrom, Count;
    CacheLife.PutCases(s, hash, key, kind, value);
    SearchedInOrder(s.table, hash, key);
    EmptySlots(s, hash, 0);
    if s.entries < s.config.maxEntries && !HasKey(s.table, key) {
      var (i, d) := CacheLife.Target(s, hash, key);
      NewPutWrites(s, hash, key, kind, value, i, d);
    }
  }
}
