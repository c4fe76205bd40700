/** LinearProbeDedupCache over real memory: each method is proved against the state machine. */
module DedupCache {
  import opened Powers
  import opened Bits
  import opened Bytes
  import opened Records
  import opened ProbeTable
  import opened CacheModel
  import CacheLife
  import DefinedRuns
  import ImageFormat
  import Memory
  import Probe
  import Trailer

  datatype Error = BadOffsetBits | LoadFactorTooHigh | BadTrailer

  /** Unusable: the program has an object, but without slots every lookup divides by zero, and over an
      image shorter than its slots lookups read beyond it. */
  datatype Created = Cache(cache: LinearProbeDedupCache) | Failed(error: Error) | Unusable

  const MAX_LOAD_FACTOR: real := 0.8

  class LinearProbeDedupCache {
    const config: Config
    const hash: Hasher
    const probe: Probe.LinearProbe
    const memory: Memory.MallocMemoryHandler
    var keySpacePtr: array<byte>
    var numberOfEntries: nat
    var maxCollisions: nat
    var values: Trailer.Values
    var valuesToIndex: map<nat, map<seq<byte>, nat>>
    var valuesMemoryHandler: Memory.MallocMemoryHandler?
    var isValuesLoaded: bool
    ghost var table: Table

    ghost predicate Valid()
      reads this, memory, memory.data, valuesMemoryHandler,
            if valuesMemoryHandler == null then {} else {valuesMemoryHandler.data}
    {
      Wired() && Inv(View(), hash)
    }

    /** How the parts of the object fit together. */
    ghost predicate Wired()
      reads this, memory, memory.data, valuesMemoryHandler,
            if valuesMemoryHandler == null then {} else {valuesMemoryHandler.data}
    {
      && memory.Valid() && ValidConfig(config) && |table| == config.n && 8 * config.n <= memory.dataSize
      && probe.Valid() && probe.offsetBits == config.offsetBits && probe.numberOfKeySlots == config.n
      && (if isValuesLoaded then config.maxEntries == 0 else IndexMatches(valuesToIndex, values))
      && (valuesMemoryHandler != null ==>
            && valuesMemoryHandler != memory && valuesMemoryHandler.data != memory.data
            && valuesMemoryHandler.Valid()
            && valuesMemoryHandler.Contents() == Trailer.Concat(values))
    }

    /** The state of the machine that this object is in. */
    ghost function View(): State
      reads this, memory, memory.data
      requires memory.Valid()
    {
      State(config, memory.Contents(), memory.realDataSize, keySpacePtr != memory.data, table,
            numberOfEntries, maxCollisions, values, valuesMemoryHandler != null, isValuesLoaded)
    }

    constructor (offsetBits: nat, numberOfKeySlots: nat, maxEntries: nat, cacheType: CacheType, hash: Hasher)
      requires ValidConfig(Config(numberOfKeySlots, offsetBits, maxEntries, cacheType))
      ensures Valid() && fresh(memory) && fresh(memory.data)
      ensures this.hash == hash
      ensures View() == Fresh(Config(numberOfKeySlots, offsetBits, maxEntries, cacheType))
      ensures memory.Contents() == seq(8 * numberOfKeySlots, _ => 0) && memory.realDataSize == 8 * numberOfKeySlots
      ensures numberOfEntries == 0 && maxCollisions == 0 && values == [] && !isValuesLoaded && valuesMemoryHandler == null
    {
      config := Config(numberOfKeySlots, offsetBits, maxEntries, cacheType);
      this.hash := hash;
      probe := new Probe.LinearProbe(offsetBits, numberOfKeySlots);
      var handler := new Memory.MallocMemoryHandler();
      handler.Allocate(numberOfKeySlots * KEY_WIDTH);
      memory := handler;
      keySpacePtr := handler.data;
      numberOfEntries, maxCollisions := 0, 0;
      values, valuesToIndex, valuesMemoryHandler, isValuesLoaded := [], map[], null, false;
      table := seq(numberOfKeySlots, _ => None);
      new;
      CacheLife.FreshInv(config, hash);
    }

    // ---------- lookups

    /** The record of a stored key, decoded from its slot. */
    method GetFromSlot(slot: nat, ghost i: nat) returns (found: Found)
      requires Valid() && keySpacePtr == memory.data
      requires i < config.n && table[i].Some? && slot == SlotWord(memory.Contents(), i)
      ensures found == Resolve(table[i].value, values)
    {
      ghost var heap, e := memory.Contents(), table[i].value;
      assert SlotMatches(heap, config.n, config.offsetBits, hash, i, table[i]);
      var pos := And(slot, probe.offsetMask) + probe.keyspaceSizeOffset;
      ReadOfEncode(heap, pos, e, values);
      var read := ReadRecord(keySpacePtr[..memory.dataSize], pos, values);
      found := read.value;
    }

    /** getWithTypeInternal: type and bytes of a stored key, and the hash unless it is absent. */
    method GetWithType(key: Key) returns (found: Option<Found>, foundHash: word)
      requires Valid() && keySpacePtr == memory.data
      ensures found == Lookup(View(), key)
      ensures foundHash == if found.Some? then hash(key) else 0
    {
      var h := hash(key);
      SearchIsCorrect(table, hash, key);
      ghost var home := Home(hash, key, config.n);
      ghost var i := SlotFrom(home, StopDistance(table, key, home, 0), config.n);
      var offset, slot, _ := probe.FindKeySlotOffset(key, h, keySpacePtr, memory.dataSize, hash, table);
      if offset == Probe.KEY_NOT_FOUND {
        found, foundHash := None, 0;
      } else {
        var f := GetFromSlot(slot, i);
        found, foundHash := Some(f), h;
      }
      assert found == Lookup(View(), key) by {
        CacheLife.LookupReadsContents(View(), hash, key);
      }
    }

    /** getInternal: nothing for an absent key, and no bytes when the type asked for is another one. */
    method GetInternal(key: Key, kind: nat) returns (bytes: seq<byte>, isExists: bool, foundHash: word)
      requires Valid() && keySpacePtr == memory.data
      ensures isExists <==> key in Contents(View())
      ensures bytes == match Lookup(View(), key)
                       case Some(found) => (if found.kind == kind then found.bytes else [])
                       case None => []
      ensures foundHash == if isExists then hash(key) else 0
    {
      var found;
      found, foundHash := GetWithType(key);
      isExists := found.Some?;
      bytes := if found.Some? && found.value.kind == kind then found.value.bytes else [];
    }

    method ContainsKey(key: Key) returns (present: bool)
      requires Valid() && keySpacePtr == memory.data
      ensures present <==> key in Contents(View())
    {
      var offset, _, _ := probe.FindKeySlotOffset(key, hash(key), keySpacePtr, memory.dataSize, hash, table);
      ContentsKey(table, values, key);
      present := offset != Probe.KEY_NOT_FOUND;
    }

    // ---------- insertion

    /** The record goes to the end of the heap, which may move. */
    method AddToEnd(record: seq<byte>) returns (newValueOffset: int)
      requires memory.Valid()
      modifies memory, memory.data
      ensures memory.Valid() && (memory.data == old(memory.data) || fresh(memory.data))
      ensures newValueOffset == old(memory.dataSize) - probe.keyspaceSizeOffset
      ensures memory.Contents() == old(memory.Contents()) + record
      ensures memory.realDataSize == Memory.CapacityAfter(old(memory.dataSize), old(memory.realDataSize), |record|)
      ensures fresh(memory.data) <==> Memory.Reallocates(old(memory.dataSize), old(memory.realDataSize), |record|)
    {
      var at := memory.Grow(|record|);
      memory.Write(at, record);
      newValueOffset := at - probe.keyspaceSizeOffset;
    }

    /** The value manager's add: the record is appended before its offset is checked, and a record
        that cannot be addressed stays behind as unused bytes. */
    method Add(keySlotOffset: nat, hashcode: word, record: seq<byte>, ghost i: nat) returns (tooShort: bool)
      requires Wired() && i < config.n && keySlotOffset == 8 * i
      modifies memory, memory.data
      ensures memory.Valid() && (memory.data == old(memory.data) || fresh(memory.data))
      ensures var heap, capacity := old(memory.Contents()), old(memory.realDataSize);
              var offset := |heap| - KeyspaceSizeOffset(config.n);
              && tooShort == (And(offset, OffsetMask(config.offsetBits)) != offset)
              && memory.Contents() == (if tooShort then heap + record
                   else WriteSlot(heap + record, i, PackSlot(hashcode, offset, config.offsetBits)))
              && memory.realDataSize == Memory.CapacityAfter(|heap|, capacity, |record|)
              && (fresh(memory.data) <==> Memory.Reallocates(|heap|, capacity, |record|))
    {
      hide IndexMatches, Trailer.Concat, And, Or, Memory.CapacityAfter, Memory.Reallocates, WriteSlot;
      var newValueOffset := AddToEnd(record);
      var slotOffset := And(newValueOffset, probe.offsetMask);
      if slotOffset != newValueOffset {
        return true;
      }
      var slot := Or(And(hashcode, probe.hashcodeMask), slotOffset);
      StoreSlot(keySlotOffset, slot, i);
      return false;
    }

    method StoreSlot(keySlotOffset: nat, slot: nat, ghost i: nat)
      requires memory.Valid() && keySlotOffset == 8 * i && 8 * i + 8 <= memory.dataSize
      modifies memory.data
      ensures memory.Valid() && memory.Contents() == WriteSlot(old(memory.Contents()), i, slot)
    {
      hide ToLe;
      memory.Write(keySlotOffset, ToLe(slot, 8));
    }

    method InsertRecord(keySlotOffset: nat, e: Entry, collisions: nat, ghost i: nat) returns (outcome: Outcome)
      requires Wired() && keySpacePtr == memory.data
      requires i < config.n && keySlotOffset == 8 * i
      modifies memory, memory.data, this`keySpacePtr, this`maxCollisions, this`numberOfEntries, this`table
      ensures Wired()
      ensures (View(), outcome) == Insert(old(View()), hash, e, i, collisions)
      ensures memory.data == old(memory.data) || fresh(memory.data)
    {
      hide Encode, WriteSlot, PackSlot, IndexMatches, And;
      var tooShort := Add(keySlotOffset, hash(e.key), Encode(e), i);
      if tooShort {
        return OffsetTooShort;
      }
      maxCollisions := Max(collisions, maxCollisions);
      numberOfEntries := numberOfEntries + 1;
      table := table[i := Some(e)];
      keySpacePtr := memory.data;
      return Inserted(collisions);
    }

    method PutInternal(key: Key, kind: nat, value: seq<byte>) returns (outcome: Outcome)
      requires Valid() && keySpacePtr == memory.data && kind < 8
      modifies memory, memory.data, this`keySpacePtr, this`maxCollisions, this`numberOfEntries, this`table
      ensures Valid()
      ensures (View(), outcome) == Put(old(View()), hash, key, kind, value)
      ensures 0 < config.n == |old(table)| && 8 * config.n <= |old(View()).heap| && 0 < Pow2(config.offsetBits)
      ensures ImageFormat.PutIs(old(View()), View(), outcome, hash(key), key, kind, value)
      ensures memory.data == old(memory.data) || fresh(memory.data)
    {
      ghost var before := View();
      outcome := PutChecked(key, kind, value);
      CacheLife.PutCorrect(before, hash, key, kind, value);
      ImageFormat.PutWrites(before, hash, key, kind, value);
    }

    method PutChecked(key: Key, kind: nat, value: seq<byte>) returns (outcome: Outcome)
      requires Valid() && keySpacePtr == memory.data
      modifies memory, memory.data, this`keySpacePtr, this`maxCollisions, this`numberOfEntries, this`table
      ensures Wired()
      ensures (View(), outcome) == Put(old(View()), hash, key, kind, value)
      ensures memory.data == old(memory.data) || fresh(memory.data)
    {
      hide Put, PutNew, SlotMatches, IndexMatches, WithinCollisions, AllResolvable, WellFormed, Count, CacheLife.Target;
      CacheLife.PutCases(View(), hash, key, kind, value);
      if numberOfEntries >= config.maxEntries {
        return KeySpaceFull;
      }
      var offset, collisions, i := FindFree(key);
      if offset == Probe.KEY_EXISTS {
        return KeyExists(collisions);
      }
      outcome := PutFresh(key, kind, value, offset, collisions, i);
    }

    method FindFree(key: Key) returns (offset: int, collisions: nat, ghost i: nat)
      requires Valid() && keySpacePtr == memory.data
      ensures offset == Probe.KEY_EXISTS <==> HasKey(table, key)
      ensures i == CacheLife.Target(View(), hash, key).0 < config.n
      ensures var d := CacheLife.Target(View(), hash, key).1;
              if HasKey(table, key) then collisions == d + 1 else collisions == d && offset == 8 * i
    {
      hide SlotMatches, IndexMatches, WithinCollisions, AllResolvable, Chained, Distinct, Count, StopDistance;
      SearchIsCorrect(table, hash, key);
      i := CacheLife.Target(View(), hash, key).0;
      offset, collisions := probe.FindFreeKeySlotOffset(key, hash(key), keySpacePtr, memory.dataSize, hash, table);
    }

    method PutFresh(key: Key, kind: nat, value: seq<byte>, offset: nat, collisions: nat, ghost i: nat)
      returns (outcome: Outcome)
      requires Wired() && keySpacePtr == memory.data && !isValuesLoaded
      requires i < config.n && offset == 8 * i
      modifies memory, memory.data, this`keySpacePtr, this`maxCollisions, this`numberOfEntries, this`table
      ensures Wired()
      ensures (View(), outcome) == PutNew(old(View()), hash, key, kind, value, i, collisions)
      ensures memory.data == old(memory.data) || fresh(memory.data)
    {
      if |key| > MAX_KEY_LENGTH {
        return KeyTooLong;
      }
      assert LookupIndex(valuesToIndex, value) == IndexOf(values, value);
      var stored := match LookupIndex(valuesToIndex, value)
        case None => Inline(value)
        case Some(index) => if index < 256 then ShortIndex(index, |value|) else LongIndex(index, |value|);
      if stored.Inline? && |value| > MAX_VALUE_LENGTH {
        return ValueTooLong;
      }
      outcome := InsertRecord(offset, Entry(key, kind, stored), collisions, i);
    }

    // ---------- the table of frequent values, and the image

    method SetDuplicatedValues(vs: Trailer.Values) returns (outcome: InstallOutcome)
      requires Valid()
      modifies this`values, this`valuesToIndex, this`valuesMemoryHandler
      ensures Valid()
      ensures (View(), outcome) == Install(old(View()), vs)
      ensures outcome == if |vs| > 65536 then TooManyValues
                         else if old(isValuesLoaded) then AlreadyLoaded
                         else if old(valuesMemoryHandler) != null then AlreadySet
                         else Installed
      ensures outcome.Installed? ==> values == vs && valuesMemoryHandler != null
      ensures !outcome.Installed? ==> values == old(values) && valuesMemoryHandler == old(valuesMemoryHandler)
      ensures valuesMemoryHandler == old(valuesMemoryHandler) ||
              (valuesMemoryHandler != null && fresh(valuesMemoryHandler) && fresh(valuesMemoryHandler.data))
    {
      hide Inv, Trailer.Concat;
      if |vs| > Trailer.MAX_DUPLICATED_VALUES {
        return TooManyValues;
      }
      if isValuesLoaded {
        return AlreadyLoaded;
      }
      if valuesMemoryHandler != null {
        return AlreadySet;
      }
      CacheLife.InstallCorrect(View(), hash, vs);
      var handler := CopyValues(vs);
      var index := BuildIndex(vs);
      values, valuesToIndex, valuesMemoryHandler := vs, index, handler;
      return Installed;
    }

    method OutputBytes() returns (w: Trailer.Written)
      requires Valid()
      ensures w == Trailer.Bytes(OutputImage(View()))
      ensures memory.dataSize <= |w.bytes| && w.bytes[..memory.dataSize] == memory.Contents()
      ensures if config.cacheType == LinearProbe || isValuesLoaded then |w.bytes| == memory.dataSize
              else if valuesMemoryHandler == null || |values| == 0 || |values| == 65536 then
                w.bytes[memory.dataSize..] == [0, 0, 0, 0, 0, 0, 0, 0]
              else Trailer.TableAt(w.bytes, memory.dataSize, values)
    {
      hide Trailer.TableAt, Trailer.Output, Trailer.Concat, ToLe;
      var records := memory.data[..memory.dataSize];
      if config.cacheType == LinearProbe || isValuesLoaded {
        return Trailer.Bytes(records);
      }
      if valuesMemoryHandler != null {
        w := Trailer.FrequentValuesOutput(values, valuesMemoryHandler.data[..valuesMemoryHandler.dataSize]);
        Trailer.OutputIsTable(records, values);
        return Trailer.Bytes(records + w.bytes);
      }
      LeZero(8);
      return Trailer.Bytes(records + ToLe(0, 8));
    }

    /** One operation of a run. */
    method Perform(op: CacheLife.Op)
      requires Valid() && (op.PutOp? ==> keySpacePtr == memory.data && op.kind < 8)
      modifies this, memory, memory.data
      ensures Valid()
      ensures View() == CacheLife.Step(old(View()), hash, op)
      ensures memory.data == old(memory.data) || fresh(memory.data)
      ensures valuesMemoryHandler == old(valuesMemoryHandler) ||
              (valuesMemoryHandler != null && fresh(valuesMemoryHandler) && fresh(valuesMemoryHandler.data))
    {
      hide Inv, Put, Install;
      match op {
        case PutOp(key, kind, value) => var _ := PutInternal(key, kind, value);
        case InstallOp(vs) => var _ := SetDuplicatedValues(vs);
      }
    }

    /** The loading constructor without its trailer: the header's counters over an image in memory. */
    constructor OverImage(c: Config, image: seq<byte>, entries: nat, maxCollisions: nat, hash: Hasher, ghost t: Table)
      requires ValidConfig(c) && c.maxEntries == 0 && |t| == c.n && 8 * c.n <= |image|
      ensures Wired() && this.hash == hash && fresh(memory) && fresh(memory.data)
      ensures View() == State(c, image, |image|, false, t, entries, maxCollisions, [], false, false)
    {
      config := c;
      this.hash := hash;
      probe := new Probe.LinearProbe(c.offsetBits, c.n);
      var handler := new Memory.MallocMemoryHandler.FromImage(image);
      memory := handler;
      keySpacePtr := handler.data;
      numberOfEntries, this.maxCollisions := entries, maxCollisions;
      values, valuesToIndex, valuesMemoryHandler, isValuesLoaded := [], map[], null, false;
      table := t;
    }
  }

  /** The two-level map from size and bytes to index answers as a search of the table does. */
  ghost predicate IndexMatches(m: map<nat, map<seq<byte>, nat>>, values: Trailer.Values) {
    forall v: seq<byte> :: LookupIndex(m, v) == IndexOf(values, v)
  }

  function LookupIndex(m: map<nat, map<seq<byte>, nat>>, v: seq<byte>): Option<nat> {
    if |v| in m && v in m[|v|] then Some(m[|v|][v]) else None
  }

  /** The values back to back in a memory handler of their own. */
  method CopyValues(vs: Trailer.Values) returns (handler: Memory.MallocMemoryHandler)
    ensures fresh(handler) && fresh(handler.data) && handler.Valid()
    ensures handler.Contents() == Trailer.Concat(vs)
  {
    handler := new Memory.MallocMemoryHandler();
    for k := 0 to |vs|
      invariant fresh(handler) && fresh(handler.data) && handler.Valid()
      invariant handler.Contents() == Trailer.Concat(vs[..k])
    {
      assert vs[..k + 1][..k] == vs[..k];
      var at := handler.Grow(|vs[k]|);
      handler.Write(at, vs[k]);
    }
    assert vs[..|vs|] == vs;
  }

  /** Equal values keep the index of the first: emplace does not overwrite. */
  method BuildIndex(vs: Trailer.Values) returns (m: map<nat, map<seq<byte>, nat>>)
    ensures IndexMatches(m, vs)
  {
    m := map[];
    for index := 0 to |vs|
      invariant IndexMatches(m, vs[..index])
    {
      var v := vs[index];
      var inner := if |v| in m then m[|v|] else map[];
      assert vs[..index + 1][..index] == vs[..index];
      assert LookupIndex(m, v) == IndexOf(vs[..index], v);
      ghost var before := m;
      m := m[|v| := if v in inner then inner else inner[v := index]];
      forall u: seq<byte>
        ensures LookupIndex(m, u) == IndexOf(vs[..index + 1], u)
      {
        assert LookupIndex(before, u) == IndexOf(vs[..index], u);
      }
    }
    assert vs[..|vs|] == vs;
  }

  /** Creating a writer: the offset bits are checked before the load factor, and the entry limit is
      the whole part of the product. */
  method CreateCache(offsetBits: nat, numberOfKeySlots: nat, maxLoadFactor: real, cacheType: CacheType, hash: Hasher)
    returns (r: Created)
    requires 0.0 <= maxLoadFactor
    ensures !r.Failed? <==> 16 <= offsetBits <= 38 && maxLoadFactor <= 0.8
    ensures !r.Failed? ==> (r.Unusable? <==> numberOfKeySlots == 0)
    ensures r.Failed? ==> r.error.BadOffsetBits? || r.error.LoadFactorTooHigh?
    ensures r.Failed? ==> (r.error.BadOffsetBits? <==> !(16 <= offsetBits <= 38))
    ensures r.Cache? ==>
              && fresh(r.cache) && r.cache.Valid() && r.cache.hash == hash
              && var limit := (numberOfKeySlots as real * maxLoadFactor).Floor;
                 0 <= limit && r.cache.View() == Fresh(Config(numberOfKeySlots, offsetBits, limit, cacheType))
  {
    if offsetBits < MIN_OFFSET_BITS || MAX_OFFSET_BITS < offsetBits {
      return Failed(BadOffsetBits);
    }
    if maxLoadFactor > MAX_LOAD_FACTOR {
      return Failed(LoadFactorTooHigh);
    }
    if numberOfKeySlots == 0 {
      return Unusable;
    }
    LimitLeavesRoom(numberOfKeySlots, maxLoadFactor);
    var limit := (numberOfKeySlots as real * maxLoadFactor).Floor;
    var c := new LinearProbeDedupCache(offsetBits, numberOfKeySlots, limit, cacheType, hash);
    return Cache(c);
  }

  lemma LimitLeavesRoom(n: nat, loadFactor: real)
    requires 0 < n && 0.0 <= loadFactor <= MAX_LOAD_FACTOR
    ensures 0 <= (n as real * loadFactor).Floor < n
  {
    var x := n as real;
    var y := x * loadFactor;
    assert 0.0 <= y <= x * MAX_LOAD_FACTOR < x;
    var f := y.Floor;
    assert f as real <= y < (f + 1) as real;
    assert n <= f ==> x <= f as real;
    assert f < 0 ==> (f + 1) as real <= 0.0;
  }

  /** Loading an image: a header with bad offset bits and a trailer of the wrong size are refused,
      and otherwise the object is in the state that the machine loads. */
  method LoadCache(c: Config, image: seq<byte>, entries: nat, maxCollisions: nat, hash: Hasher, ghost t: Table)
    returns (r: Created)
    requires |t| == c.n
    ensures !r.Failed? <==>
            && 16 <= c.offsetBits <= 38
            && Load(c, image, t, entries, maxCollisions).Some?
    ensures !r.Failed? ==> (r.Unusable? <==> c.n == 0 || |image| < 8 * c.n)
    ensures r.Cache? ==>
              && fresh(r.cache) && r.cache.Wired() && r.cache.hash == hash
              && r.cache.View() == Load(c, image, t, entries, maxCollisions).value
              && (Inv(r.cache.View(), hash) ==> r.cache.Valid())
    ensures !r.Failed? <==>
            16 <= c.offsetBits <= 38 && (c.cacheType == LinearProbe || Trailer.Parse(image).Loaded?)
    ensures r.Cache? ==>
              && r.cache.memory.Contents() == image && r.cache.config == c.(maxEntries := 0)
              && r.cache.numberOfEntries == entries && r.cache.maxCollisions == maxCollisions
              && (r.cache.isValuesLoaded <==> c.cacheType != LinearProbe)
              && (if c.cacheType == LinearProbe then r.cache.values == []
                  else Trailer.Parse(image) == Trailer.Loaded(r.cache.values))
  {
    if c.offsetBits < MIN_OFFSET_BITS || MAX_OFFSET_BITS < c.offsetBits {
      return Failed(BadOffsetBits);
    }
    if c.n == 0 || |image| < 8 * c.n {
      if c.cacheType != LinearProbe {
        var handler := new Memory.MallocMemoryHandler.FromImage(image);
        assert handler.data[..handler.dataSize] == image;
        var parsed := Trailer.SetFrequentValue(handler.data, handler.dataSize);
        if !parsed.Loaded? {
          return Failed(BadTrailer);
        }
      }
      return Unusable;
    }
    var cache := new LinearProbeDedupCache.OverImage(c.(maxEntries := 0), image, entries, maxCollisions, hash, t);
    if c.cacheType != LinearProbe {
      assert cache.memory.data[..cache.memory.dataSize] == image;
      var parsed := Trailer.SetFrequentValue(cache.memory.data, cache.memory.dataSize);
      if !parsed.Loaded? {
        return Failed(BadTrailer);
      }
      cache.values := parsed.values;
      cache.isValuesLoaded := true;
    }
    return Cache(cache);
  }

  /** A writer's whole run on real objects: every operation is performed, the image is written and
      loaded, and the loaded object answers from the abstract first-write-wins map. */
  method WriteThenLoad(c: Config, hash: Hasher, ops: seq<CacheLife.Op>) returns (loaded: LinearProbeDedupCache)
    requires ValidConfig(c) && CacheLife.ValidOps(ops) && DefinedRuns.NoneStranded(c, CacheLife.Start(c), ops)
    requires CacheLife.TableSurvives(c.cacheType, CacheLife.AbstractRun(c, CacheLife.Start(c), ops).values)
    ensures fresh(loaded) && loaded.Valid() && loaded.keySpacePtr == loaded.memory.data
    ensures Contents(loaded.View()) == CacheLife.AbstractRun(c, CacheLife.Start(c), ops).contents
  {
    hide CacheLife.Defined, DefinedRuns.NoneStranded, CacheLife.ValidOps, IndexMatches, Represents, WellFormed, Lookup,
         Trailer.TableAt;
    DefinedRuns.DefinedExactly(c, hash, ops);
    var writer := Replay(c, hash, ops);
    ghost var s := writer.View();
    CacheLife.WholeLife(c, hash, ops);
    var w := writer.OutputBytes();
    var r := LoadCache(c, w.bytes, writer.numberOfEntries, writer.maxCollisions, hash, writer.table);
    assert r.Cache?;
    loaded := r.cache;
  }

  method Replay(c: Config, hash: Hasher, ops: seq<CacheLife.Op>) returns (writer: LinearProbeDedupCache)
    requires ValidConfig(c) && CacheLife.ValidOps(ops) && CacheLife.Defined(Fresh(c), hash, ops)
    ensures fresh(writer) && writer.Valid() && writer.hash == hash
    ensures writer.View() == CacheLife.Run(Fresh(c), hash, ops)
  {
    writer := new LinearProbeDedupCache(c.offsetBits, c.n, c.maxEntries, c.cacheType, hash);
    assert ops[0..] == ops;
    for k := 0 to |ops|
      invariant fresh(writer) && fresh(writer.memory) && fresh(writer.memory.data)
      invariant writer.Valid() && writer.hash == hash
      invariant CacheLife.Defined(writer.View(), hash, ops[k..])
      invariant CacheLife.Run(writer.View(), hash, ops[k..]) == CacheLife.Run(Fresh(c), hash, ops)
    {
      hide Inv, CacheLife.Step;
      assert ops[k..][0] == ops[k] && ops[k..][1..] == ops[k + 1..];
      writer.Perform(ops[k]);
    }
  }
}
