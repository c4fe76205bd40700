/** LinearProbe: the two searches over the raw key space. */
module Probe {
  import opened Bits
  import opened Bytes
  import opened Records
  import opened ProbeTable

  const KEY_NOT_FOUND: int := -1
  const KEY_EXISTS: int := -2

  class LinearProbe {
    const offsetBits: nat
    const numberOfKeySlots: nat
    const keyspaceSizeOffset: int
    const hashcodeMask: nat
    const offsetMask: nat

    ghost predicate Valid() {
      && 0 < numberOfKeySlots
      && MIN_OFFSET_BITS <= offsetBits <= MAX_OFFSET_BITS
      && keyspaceSizeOffset == KeyspaceSizeOffset(numberOfKeySlots)
      && hashcodeMask == HashcodeMask(offsetBits)
      && offsetMask == OffsetMask(offsetBits)
    }

    constructor (offsetBits: nat, numberOfKeySlots: nat)
      requires MIN_OFFSET_BITS <= offsetBits <= MAX_OFFSET_BITS && 0 < numberOfKeySlots
      ensures Valid() && this.offsetBits == offsetBits && this.numberOfKeySlots == numberOfKeySlots
    {
      this.offsetBits := offsetBits;
      this.numberOfKeySlots := numberOfKeySlots;
      keyspaceSizeOffset := numberOfKeySlots * KEY_WIDTH - 8;
      hashcodeMask := HashcodeMask(offsetBits);
      offsetMask := OffsetMask(offsetBits);
    }

    /** The bytes of the key space and the records behind it, as a table. */
    ghost predicate Over(keySpace: array<byte>, size: nat, hash: Hasher, t: Table)
      reads keySpace
    {
      && Valid() && size <= keySpace.Length
      && Represents(keySpace[..size], numberOfKeySlots, offsetBits, hash, t)
      && WellFormed(t, hash)
    }

    /** A slot is empty exactly when its offset is 0: the bias keeps every real offset above. */
    method LoadSlot(keySpace: array<byte>, slotId: nat, ghost size: nat, ghost hash: Hasher, ghost t: Table)
      returns (slot: nat)
      requires Over(keySpace, size, hash, t) && slotId < numberOfKeySlots
      ensures slot == SlotWord(keySpace[..size], slotId)
      ensures And(slot, offsetMask) == 0 <==> t[slotId].None?
    {
      SliceOfSlice(keySpace[..], 0, size, 8 * slotId, 8 * slotId + 8);
      slot := Le(keySpace[8 * slotId..8 * slotId + 8]);
      assert SlotMatches(keySpace[..size], numberOfKeySlots, offsetBits, hash, slotId, t[slotId]);
    }

    /** The prefix filter and the comparison of size and bytes agree with equality of keys. */
    method Matches(keySpace: array<byte>, slot: nat, hashcode: word, key: Key,
                   ghost size: nat, ghost hash: Hasher, ghost t: Table, ghost i: nat) returns (same: bool)
      requires Over(keySpace, size, hash, t) && hashcode == hash(key)
      requires i < numberOfKeySlots && t[i].Some? && slot == SlotWord(keySpace[..size], i)
      ensures same <==> t[i].value.key == key
    {
      hide And, Le, HashcodeMask, OffsetMask, Encode, WellFormed, Encodable;
      ghost var heap, e := keySpace[..size], t[i].value;
      assert SlotMatches(heap, numberOfKeySlots, offsetBits, hash, i, t[i]);
      var slotOffset := And(slot, offsetMask);
      if And(slot, hashcodeMask) != And(hashcode, hashcodeMask) {
        return false;
      }
      var pos := slotOffset + keyspaceSizeOffset;
      DecodeOfEncode(heap, pos, e);
      SliceOfSlice(keySpace[..], 0, size, pos, pos + 2);
      var keySize := Le(keySpace[pos..pos + 2]);
      if keySize != |key| {
        return false;
      }
      SliceOfSlice(keySpace[..], 0, size, pos + 6, pos + 6 + keySize);
      same := keySpace[pos + RECORD_HEADER..pos + RECORD_HEADER + keySize] == key;
    }

    /** The key's slot offset and slot, or NOT_FOUND; inspected counts the slots that were loaded. */
    method FindKeySlotOffset(key: Key, hashcode: word, keySpace: array<byte>,
                             ghost size: nat, ghost hash: Hasher, ghost t: Table)
      returns (offset: int, foundSlot: nat, ghost inspected: nat)
      requires Over(keySpace, size, hash, t) && hashcode == hash(key)
      ensures offset == KEY_NOT_FOUND <==> !HasKey(t, key)
      ensures var home := Home(hash, key, numberOfKeySlots);
              var stop := StopDistance(t, key, home, 0);
              && stop < numberOfKeySlots && inspected == stop + 1
              && (HasKey(t, key) ==>
                    var i := SlotFrom(home, stop, numberOfKeySlots);
                    offset == 8 * i && foundSlot == SlotWord(keySpace[..size], i))
      ensures 1 <= inspected && SearchEnds(t, hashcode, inspected - 1, key)
      ensures HasKey(t, key) ==>
                var i := (hashcode + (inspected - 1)) % numberOfKeySlots;
                && offset == 8 * i && 0 <= i && 8 * i + 8 <= size && foundSlot == Eight(keySpace[..size], 8 * i)
      ensures !HasKey(t, key) ==> offset == -1
    {
      hide SlotMatches, SlotWord, And, SearchEnds, Eight;
      ghost var n, home := numberOfKeySlots, Home(hash, key, numberOfKeySlots);
      ghost var stop := StopDistance(t, key, home, 0);
      SearchIsCorrect(t, hash, key);
      SearchedInOrder(t, hash, key);
      var slotId := hashcode % numberOfKeySlots;
      ghost var d := 0;
      while true
        invariant 0 <= d <= stop && slotId == SlotFrom(home, d, n)
        decreases n - d
      {
        var slot := LoadSlot(keySpace, slotId, size, hash, t);
        var slotOffset := And(slot, offsetMask);
        if slotOffset == 0 {
          return KEY_NOT_FOUND, 0, d + 1;
        }
        var same := Matches(keySpace, slot, hashcode, key, size, hash, t, slotId);
        if same {
          SlotByPlaces(keySpace[..size], slotId);
          return slotId * KEY_WIDTH, slot, d + 1;
        }
        slotId := slotId + 1;
        if slotId == numberOfKeySlots {
          slotId := 0;
        }
        assert d != stop;
        d := d + 1;
      }
    }

    /** An empty slot for a new key, or EXISTS; the collisions count the occupied slots inspected. */
    method FindFreeKeySlotOffset(key: Key, hashcode: word, keySpace: array<byte>,
                                 ghost size: nat, ghost hash: Hasher, ghost t: Table)
      returns (offset: int, collisions: nat)
      requires Over(keySpace, size, hash, t) && hashcode == hash(key)
      ensures offset == KEY_EXISTS <==> HasKey(t, key)
      ensures var home := Home(hash, key, numberOfKeySlots);
              var stop := StopDistance(t, key, home, 0);
              if HasKey(t, key) then collisions == stop + 1
              else stop < numberOfKeySlots && collisions == stop && offset == 8 * SlotFrom(home, stop, numberOfKeySlots)
      ensures if HasKey(t, key)
              then offset == -2 && 1 <= collisions && SearchEnds(t, hashcode, collisions - 1, key)
              else offset == 8 * ((hashcode + collisions) % numberOfKeySlots) && SearchEnds(t, hashcode, collisions, key)
    {
      hide SlotMatches, SlotWord, And, SearchEnds, Eight;
      ghost var n, home := numberOfKeySlots, Home(hash, key, numberOfKeySlots);
      ghost var stop := StopDistance(t, key, home, 0);
      SearchIsCorrect(t, hash, key);
      SearchedInOrder(t, hash, key);
      var slotId := hashcode % numberOfKeySlots;
      collisions := 0;
      while true
        invariant 0 <= collisions <= stop && slotId == SlotFrom(home, collisions, n)
        decreases n - collisions
      {
        var slot := LoadSlot(keySpace, slotId, size, hash, t);
        var slotOffset := And(slot, offsetMask);
        if slotOffset == 0 {
          return slotId * KEY_WIDTH, collisions;
        }
        collisions := collisions + 1;
        var same := Matches(keySpace, slot, hashcode, key, size, hash, t, slotId);
        if same {
          return KEY_EXISTS, collisions;
        }
        slotId := slotId + 1;
        if slotId == numberOfKeySlots {
          slotId := 0;
        }
      }
    }
  }

  lemma SlotByPlaces(heap: seq<byte>, i: nat)
    requires 8 * i + 8 <= |heap|
    ensures SlotWord(heap, i) == Eight(heap, 8 * i)
  {
    PlaceValues(heap, 8 * i);
  }
}
