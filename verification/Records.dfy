/** Packed key slots and the records they point at, byte for byte as LinearProbe lays them out. */
module Records {
  import opened Powers
  import opened Bits
  import opened Bytes

  const KEY_WIDTH: nat := 8
  const RECORD_HEADER: nat := 6
  const DEDUP_FLAG: nat := 16
  const DEDUP_EXTENDED_FLAG: nat := 1
  const MIN_OFFSET_BITS: nat := 16
  const MAX_OFFSET_BITS: nat := 38
  const MAX_KEY_LENGTH: nat := 0xFFFF
  const MAX_VALUE_LENGTH: nat := 0xFF_FFFF

  type Key = seq<byte>

  /** What follows the key in a record: the value itself, or its index in the table of frequent
      values in one or two bytes together with the size of the value that was replaced. */
  datatype Stored =
    | Inline(bytes: seq<byte>)
    | ShortIndex(index: nat, size: nat)
    | LongIndex(index: nat, size: nat)

  datatype Entry = Entry(key: Key, kind: nat, stored: Stored)

  predicate Encodable(e: Entry) {
    && |e.key| <= MAX_KEY_LENGTH
    && e.kind < 8
    && match e.stored {
         case Inline(bytes) => |bytes| <= MAX_VALUE_LENGTH
         case ShortIndex(index, size) => index < 0x100
         case LongIndex(index, size) => 0x100 <= index < 0x1_0000
       }
  }

  // ---------- slots

  function OffsetMask(offsetBits: nat): nat
    requires MIN_OFFSET_BITS <= offsetBits <= MAX_OFFSET_BITS
  {
    ShiftOfOne(offsetBits);
    Shl(1, offsetBits) - 1
  }

  lemma ShiftOfOne(k: nat)
    requires k <= MAX_OFFSET_BITS
    ensures Shl(1, k) == Pow2(k) > 0
  {
    TwoToThe64();
    PowPositive(2, k);
    PowStrictlyMonotonic(2, k, 64);
    DivModUnique(Pow2(k), TWO64, 0, Pow2(k));
  }

  function HashcodeMask(offsetBits: nat): nat
    requires MIN_OFFSET_BITS <= offsetBits <= MAX_OFFSET_BITS
  {
    var maxUint64: word := TWO64 - 1;
    PowPositive(2, offsetBits);
    QuotientInRange(maxUint64, Pow2(offsetBits));
    Shl(Shr(maxUint64, offsetBits), offsetBits)
  }

  lemma QuotientInRange(x: nat, d: nat)
    requires 0 < d
    ensures 0 <= x / d <= x
  {
    DivModSplit(x, d);
    MulMonotonic(x / d, 1, d);
  }

  /** Offsets of records are counted from here, so that the first record is at 8 and 0 means empty. */
  function KeyspaceSizeOffset(n: nat): int {
    n * KEY_WIDTH - 8
  }

  function PackSlot(hashcode: word, offset: nat, offsetBits: nat): nat
    requires MIN_OFFSET_BITS <= offsetBits <= MAX_OFFSET_BITS
  {
    Or(And(hashcode, HashcodeMask(offsetBits)), offset)
  }

  /** The two masks are 2^b - 1 and 2^64 - 2^b. */
  lemma MaskValues(offsetBits: nat)
    requires MIN_OFFSET_BITS <= offsetBits <= MAX_OFFSET_BITS
    ensures 1 < Pow2(offsetBits) <= TWO64
    ensures OffsetMask(offsetBits) == Pow2(offsetBits) - 1
    ensures HashcodeMask(offsetBits) == Pow2(64) - Pow2(offsetBits)
  {
    TwoToThe64();
    PowStrictlyMonotonic(2, offsetBits, 64);
    PowStrictlyMonotonic(2, 0, offsetBits);
    var p, q := Pow2(offsetBits), Pow2(64 - offsetBits);
    PowPositive(2, 64 - offsetBits);
    PowAdd(2, 64 - offsetBits, offsetBits);
    assert TWO64 - 1 == (q - 1) * p + (p - 1) by {
      MulDistributes(p, q, -1);
    }
    DivModUnique(TWO64 - 1, p, q - 1, p - 1);
    MulDistributes(p, q, -1);
    assert (q - 1) * p == TWO64 - p;
    DivModUnique(TWO64 - p, TWO64, 0, TWO64 - p);
    ShiftOfOne(offsetBits);
  }

  /** A packed slot gives back the offset it was made from and the masked bits of the hash. */
  lemma PackedSlotUnpacks(hashcode: word, offset: nat, offsetBits: nat)
    requires MIN_OFFSET_BITS <= offsetBits <= MAX_OFFSET_BITS
    requires offset < Pow2(offsetBits)
    ensures var slot := PackSlot(hashcode, offset, offsetBits);
            && slot < TWO64
            && And(slot, OffsetMask(offsetBits)) == offset
            && And(slot, HashcodeMask(offsetBits)) == And(hashcode, HashcodeMask(offsetBits))
  {
    MaskValues(offsetBits);
    TwoToThe64();
    var p := Pow2(offsetBits);
    var q := hashcode / p;
    var slot := PackSlot(hashcode, offset, offsetBits);
    assert And(hashcode, HashcodeMask(offsetBits)) == q * p by {
      DivModSplit(hashcode, p);
      AndHighMask(hashcode, offsetBits, 64);
    }
    QuotientInRange(hashcode, p);
    assert slot == q * p + offset by {
      OrDisjoint(offsetBits, q, offset);
    }
    SlotFits(q, offsetBits, hashcode);
    DivModUnique(slot, p, q, offset);
    AndLowMask(slot, offsetBits);
    AndHighMask(slot, offsetBits, 64);
  }

  lemma SlotFits(q: int, offsetBits: nat, h: word)
    requires offsetBits <= MAX_OFFSET_BITS && 0 < Pow2(offsetBits) && q == h / Pow2(offsetBits)
    ensures q * Pow2(offsetBits) + Pow2(offsetBits) <= TWO64
  {
    var p, m := Pow2(offsetBits), Pow2(64 - offsetBits);
    TwoToThe64();
    PowAdd(2, 64 - offsetBits, offsetBits);
    DivModSplit(h, p);
    if m <= q {
      MulMonotonic(p, m, q);
      assert false;
    }
    MulMonotonic(p, q + 1, m);
    MulDistributes(p, q, 1);
  }

  // ---------- records

  function DedupIndex(s: Stored): nat {
    match s
    case Inline(_) => 0
    case ShortIndex(_, _) => DEDUP_FLAG
    case LongIndex(_, _) => DEDUP_EXTENDED_FLAG
  }

  function Payload(s: Stored): seq<byte> {
    match s
    case Inline(bytes) => bytes
    case ShortIndex(index, _) => ToLe(index, 1)
    case LongIndex(index, _) => ToLe(index, 2)
  }

  /** The 24-bit size field; the size of a value that was replaced by its index is not checked. */
  function SizeField(s: Stored): nat {
    match s
    case Inline(bytes) => |bytes| % 0x100_0000
    case ShortIndex(_, size) => size % 0x100_0000
    case LongIndex(_, size) => size % 0x100_0000
  }

  /** The four bytes after the key size: 5 bits of dedup flags, 3 of type, 24 of size. */
  function InfoWord(e: Entry): nat {
    DedupIndex(e.stored) + 32 * (e.kind % 8) + 256 * SizeField(e.stored)
  }

  function Encode(e: Entry): (s: seq<byte>)
    ensures |s| == RECORD_HEADER + |e.key| + |Payload(e.stored)|
  {
    ToLe(|e.key|, 2) + ToLe(InfoWord(e), 4) + e.key + Payload(e.stored)
  }

  predicate RecordAt(heap: seq<byte>, pos: nat, e: Entry) {
    pos + |Encode(e)| <= |heap| && heap[pos..pos + |Encode(e)|] == Encode(e)
  }

  /** Reading the fields of an encoded record gives back the entry. */
  lemma DecodeOfEncode(heap: seq<byte>, pos: nat, e: Entry)
    requires Encodable(e) && RecordAt(heap, pos, e)
    ensures Le(heap[pos..pos + 2]) == |e.key|
    ensures var info := Le(heap[pos + 2..pos + 6]);
            && info % 32 == DedupIndex(e.stored)
            && info / 32 % 8 == e.kind
            && info / 256 == SizeField(e.stored)
    ensures pos + 6 + |e.key| + |Payload(e.stored)| <= |heap|
    ensures heap[pos + 6..pos + 6 + |e.key|] == e.key
    ensures heap[pos + 6 + |e.key|..pos + 6 + |e.key| + |Payload(e.stored)|] == Payload(e.stored)
  {
    var all, k, v := Encode(e), |e.key|, |Payload(e.stored)|;
    EncodedParts(e);
    SliceOfSlice(heap, pos, pos + |all|, 0, 2);
    SliceOfSlice(heap, pos, pos + |all|, 2, 6);
    SliceOfSlice(heap, pos, pos + |all|, 6, 6 + k);
    SliceOfSlice(heap, pos, pos + |all|, 6 + k, 6 + k + v);
    InfoFields(DedupIndex(e.stored), e.kind, SizeField(e.stored));
  }

  lemma EncodedParts(e: Entry)
    requires Encodable(e)
    ensures var all, k, v := Encode(e), |e.key|, |Payload(e.stored)|;
            && Le(all[0..2]) == k && Le(all[2..6]) == InfoWord(e)
            && all[6..6 + k] == e.key && all[6 + k..6 + k + v] == Payload(e.stored)
  {
    var all, k := Encode(e), |e.key|;
    assert all[0..2] == ToLe(k, 2) && all[2..6] == ToLe(InfoWord(e), 4);
    assert Pow(256, 2) == 0x1_0000 && Pow(256, 4) == TWO32;
    LeOfToLe(k, 2);
    LeOfToLe(InfoWord(e), 4);
  }

  lemma InfoFields(dedup: nat, kind: nat, size: nat)
    requires dedup < 32 && kind < 8
    ensures var info := dedup + 32 * kind + 256 * size;
            info % 32 == dedup && info / 32 % 8 == kind && info / 256 == size
  {
    var info := dedup + 32 * kind + 256 * size;
    assert info / 32 == kind + 8 * size;
  }

  // ---------- the heap as a table of entries

  type Hasher = Key -> word

  type Table = seq<Option<Entry>>

  function SlotWord(heap: seq<byte>, i: nat): nat
    requires 8 * i + 8 <= |heap|
  {
    Le(heap[8 * i..8 * i + 8])
  }

  /** Slot i of the heap is empty, or packs the prefix of the key's hash and leads to the record. */
  ghost predicate SlotMatches(heap: seq<byte>, n: nat, offsetBits: nat, hash: Hasher, i: nat, cell: Option<Entry>)
    requires MIN_OFFSET_BITS <= offsetBits <= MAX_OFFSET_BITS
    requires i < n && 8 * n <= |heap|
  {
    var slot := SlotWord(heap, i);
    var offset := And(slot, OffsetMask(offsetBits));
    match cell
    case None => offset == 0
    case Some(e) =>
      && 8 <= offset
      && Encodable(e)
      && And(slot, HashcodeMask(offsetBits)) == And(hash(e.key), HashcodeMask(offsetBits))
      && RecordAt(heap, offset + KeyspaceSizeOffset(n), e)
  }

  ghost predicate Represents(heap: seq<byte>, n: nat, offsetBits: nat, hash: Hasher, t: Table)
    requires MIN_OFFSET_BITS <= offsetBits <= MAX_OFFSET_BITS
  {
    && |t| == n > 0 && 8 * n <= |heap|
    && forall i :: 0 <= i < n ==> SlotMatches(heap, n, offsetBits, hash, i, t[i])
  }

  /** Bytes after the heap do not disturb it: records and a trailer are appended freely. */
  lemma RepresentsPrefix(heap: seq<byte>, more: seq<byte>, n: nat, offsetBits: nat, hash: Hasher, t: Table)
    requires MIN_OFFSET_BITS <= offsetBits <= MAX_OFFSET_BITS
    requires Represents(heap, n, offsetBits, hash, t)
    ensures Represents(heap + more, n, offsetBits, hash, t)
  {
    forall i | 0 <= i < n
      ensures SlotMatches(heap + more, n, offsetBits, hash, i, t[i])
    {
      SliceOfConcat(heap, more, 8 * i, 8 * i + 8);
      assert SlotMatches(heap, n, offsetBits, hash, i, t[i]);
      if t[i].Some? {
        var pos := And(SlotWord(heap, i), OffsetMask(offsetBits)) + KeyspaceSizeOffset(n);
        SliceOfConcat(heap, more, pos, pos + |Encode(t[i].value)|);
      }
    }
  }

  /** A freshly allocated, zeroed key space is an empty table. */
  lemma ZeroHeapIsEmpty(n: nat, offsetBits: nat, hash: Hasher)
    requires MIN_OFFSET_BITS <= offsetBits <= MAX_OFFSET_BITS && 0 < n
    ensures Represents(seq(8 * n, _ => 0), n, offsetBits, hash, seq(n, _ => None))
  {
    var heap: seq<byte> := seq(8 * n, _ => 0);
    forall i | 0 <= i < n
      ensures SlotMatches(heap, n, offsetBits, hash, i, None)
    {
      assert heap[8 * i..8 * i + 8] == seq(8, _ => 0);
      LeZero(8);
      LeOfToLe(0, 8);
      AndZero(OffsetMask(offsetBits));
    }
  }

  function WriteSlot(heap: seq<byte>, i: nat, slot: nat): (h: seq<byte>)
    requires 8 * i + 8 <= |heap|
    ensures |h| == |heap|
  {
    heap[..8 * i] + ToLe(slot, 8) + heap[8 * i + 8..]
  }

  lemma WriteSlotFrame(heap: seq<byte>, i: nat, slot: nat, a: nat, b: nat)
    requires 8 * i + 8 <= |heap| && a <= b <= |heap| && (b <= 8 * i || 8 * i + 8 <= a)
    ensures WriteSlot(heap, i, slot)[a..b] == heap[a..b]
  {
  }

  lemma WriteSlotReads(heap: seq<byte>, i: nat, slot: word)
    requires 8 * i + 8 <= |heap|
    ensures SlotWord(WriteSlot(heap, i, slot), i) == slot
  {
    assert WriteSlot(heap, i, slot)[8 * i..8 * i + 8] == ToLe(slot, 8);
    assert Pow(256, 4) == TWO32 && Pow(256, 8) == TWO64;
    LeOfToLe(slot, 8);
  }

  /** Appending a record and packing its offset into an empty slot adds the entry there,
      whenever the biased offset fits the offset bits. */
  lemma AddEntry(heap: seq<byte>, n: nat, offsetBits: nat, hash: Hasher, t: Table, i: nat, e: Entry)
    requires MIN_OFFSET_BITS <= offsetBits <= MAX_OFFSET_BITS
    requires Represents(heap, n, offsetBits, hash, t)
    requires i < n && t[i].None? && Encodable(e)
    requires |heap| - KeyspaceSizeOffset(n) < Pow2(offsetBits)
    ensures var slot := PackSlot(hash(e.key), |heap| - KeyspaceSizeOffset(n), offsetBits);
            Represents(WriteSlot(heap + Encode(e), i, slot), n, offsetBits, hash, t[i := Some(e)])
  {
    hide PackSlot, Encode, And, OffsetMask, HashcodeMask, WriteSlot, SlotWord;
    var offset := |heap| - KeyspaceSizeOffset(n);
    var slot := PackSlot(hash(e.key), offset, offsetBits);
    PackedSlotUnpacks(hash(e.key), offset, offsetBits);
    RepresentsPrefix(heap, Encode(e), n, offsetBits, hash, t);
    var grown := heap + Encode(e);
    var h, t' := WriteSlot(grown, i, slot), t[i := Some(e)];
    forall j | 0 <= j < n
      ensures SlotMatches(h, n, offsetBits, hash, j, t'[j])
    {
      if j == i {
        WriteSlotReads(grown, i, slot);
        SliceOfConcat(heap, Encode(e), |heap|, |heap| + |Encode(e)|);
        WriteSlotFrame(grown, i, slot, |heap|, |heap| + |Encode(e)|);
      } else {
        assert SlotMatches(grown, n, offsetBits, hash, j, t[j]);
        OtherSlotKept(grown, n, offsetBits, hash, j, t[j], i, slot);
      }
    }
  }

  lemma OtherSlotKept(heap: seq<byte>, n: nat, offsetBits: nat, hash: Hasher, j: nat, cell: Option<Entry>, i: nat, slot: nat)
    requires MIN_OFFSET_BITS <= offsetBits <= MAX_OFFSET_BITS
    requires i < n && j < n && i != j && 8 * n <= |heap|
    requires SlotMatches(heap, n, offsetBits, hash, j, cell)
    ensures SlotMatches(WriteSlot(heap, i, slot), n, offsetBits, hash, j, cell)
  {
    WriteSlotFrame(heap, i, slot, 8 * j, 8 * j + 8);
    if cell.Some? {
      var pos := And(SlotWord(heap, j), OffsetMask(offsetBits)) + KeyspaceSizeOffset(n);
      WriteSlotFrame(heap, i, slot, pos, pos + |Encode(cell.value)|);
    }
  }
}
