/** The whole life of a cache: every run of insertions and table installs refines an abstract
    first-write-wins map, and writing the image and loading it brings the map back. */
module CacheLife {
  import opened Powers
  import opened Bits
  import opened Bytes
  import opened Records
  import opened ProbeTable
  import opened CacheModel
  import Memory
  import Trailer

  // ---------- every operation keeps the invariant

  lemma FreshInv(c: Config, hash: Hasher)
    requires ValidConfig(c)
    ensures Inv(Fresh(c), hash) && Contents(Fresh(c)) == map[]
  {
    ZeroHeapIsEmpty(c.n, c.offsetBits, hash);
    CountOfEmpty(c.n);
    MapOfEmpty(c.n);
  }

  predicate OffsetFits(s: State)
    requires ValidConfig(s.config)
  {
    |s.heap| - KeyspaceSizeOffset(s.config.n) < Pow2(s.config.offsetBits)
  }

  lemma OffsetCheck(s: State, hash: Hasher)
    requires Inv(s, hash)
    ensures var offset := |s.heap| - KeyspaceSizeOffset(s.config.n);
            && 8 <= offset
            && (And(offset, OffsetMask(s.config.offsetBits)) == offset <==> OffsetFits(s))
  {
    var offset, bits := |s.heap| - KeyspaceSizeOffset(s.config.n), s.config.offsetBits;
    MaskValues(bits);
    AndLowMask(offset, bits);
    if OffsetFits(s) {
      DivModUnique(offset, Pow2(bits), 0, offset);
    }
  }

  /** Why an insertion ends as it does; the outcomes are exclusive and the order of the checks
      decides between them. */
  ghost predicate OutcomeMeans(s: State, known: bool, key: Key, value: seq<byte>, o: Outcome)
    requires ValidConfig(s.config)
  {
    var full := s.entries >= s.config.maxEntries;
    var longKey := |key| > MAX_KEY_LENGTH;
    var longValue := |value| > MAX_VALUE_LENGTH && value !in s.values;
    match o
    case KeySpaceFull => full
    case KeyExists(_) => !full && known
    case KeyTooLong => !full && !known && longKey
    case ValueTooLong => !full && !known && !longKey && longValue
    case OffsetTooShort => !full && !known && !longKey && !longValue && !OffsetFits(s)
    case Inserted(_) => !full && !known && !longKey && !longValue && OffsetFits(s)
  }

  lemma StoredIsEncodable(s: State, e: Entry, value: seq<byte>)
    requires |s.values| <= Trailer.MAX_DUPLICATED_VALUES
    requires e.stored == Store(s.values, value) && |e.key| <= MAX_KEY_LENGTH && e.kind < 8
    requires |value| <= MAX_VALUE_LENGTH || !e.stored.Inline?
    ensures Encodable(e) && Resolvable(e, s.values)
    ensures Resolve(e, s.values) == Found(e.kind, value)
  {
  }

  /** Where a new key goes, and how far that is from its home. */
  function Target(s: State, hash: Hasher, key: Key): (nat, nat)
    requires 0 < |s.table|
  {
    var home := Home(hash, key, |s.table|);
    var d := StopDistance(s.table, key, home, 0);
    (SlotFrom(home, d, |s.table|), d)
  }

  /** How the search for the key decides an insertion. */
  lemma PutCases(s: State, hash: Hasher, key: Key, kind: nat, value: seq<byte>)
    requires Inv(s, hash)
    ensures var (i, d) := Target(s, hash, key);
            && d < s.config.n && i < s.config.n
            && Put(s, hash, key, kind, value) ==
               if s.entries >= s.config.maxEntries then (s, KeySpaceFull)
               else if HasKey(s.table, key) then (s, KeyExists(d + 1))
               else PutNew(s, hash, key, kind, value, i, d)
  {
    hide PutNew, SlotMatches, WithinCollisions, AllResolvable;
    SearchIsCorrect(s.table, hash, key);
  }

  lemma PutOutcome(s: State, hash: Hasher, key: Key, kind: nat, value: seq<byte>)
    requires Inv(s, hash) && kind < 8
    ensures OutcomeMeans(s, HasKey(s.table, key), key, value, Put(s, hash, key, kind, value).1)
  {
    hide Put, Placed, Append, SlotMatches, Chained, WithinCollisions, And;
    PutCases(s, hash, key, kind, value);
    OffsetCheck(s, hash);
  }

  lemma PutThatWrites(s: State, hash: Hasher, key: Key, kind: nat, value: seq<byte>)
    requires Inv(s, hash) && kind < 8
    requires Put(s, hash, key, kind, value).0 != s
    ensures var (i, d) := Target(s, hash, key);
            var e := Entry(key, kind, Store(s.values, value));
            && i < s.config.n && !HasKey(s.table, key) && s.entries < s.config.maxEntries
            && Encodable(e) && Resolvable(e, s.values) && Resolve(e, s.values) == Found(kind, value)
            && Put(s, hash, key, kind, value) == Insert(s, hash, e, i, d)
  {
    SearchIsCorrect(s.table, hash, key);
    StoredIsEncodable(s, Entry(key, kind, Store(s.values, value)), value);
  }

  lemma InsertKeepsTable(s: State, hash: Hasher, e: Entry)
    requires Inv(s, hash) && Encodable(e) && Resolvable(e, s.values)
    requires !HasKey(s.table, e.key) && s.entries < s.config.maxEntries
    ensures var (i, d) := Target(s, hash, e.key);
            && i < s.config.n && s.table[i].None?
            && var t := s.table[i := Some(e)];
            && WellFormed(t, hash) && Count(t) == s.entries + 1
            && WithinCollisions(t, hash, Max(d, s.maxCollisions))
            && AllResolvable(t, s.values)
            && ContentsOf(t, s.values) == Contents(s)[e.key := Resolve(e, s.values)]
  {
    InsertKeepsInvariant(s.table, hash, e, s.maxCollisions);
    var (i, d) := Target(s, hash, e.key);
    InsertedContents(s.table, s.values, i, e);
  }

  lemma InsertedContents(t: Table, values: Trailer.Values, i: nat, e: Entry)
    requires Distinct(t) && AllResolvable(t, values) && Resolvable(e, values)
    requires i < |t| && t[i].None? && !HasKey(t, e.key)
    ensures var t' := t[i := Some(e)];
            && Distinct(t') && AllResolvable(t', values)
            && ContentsOf(t', values) == ContentsOf(t, values)[e.key := Resolve(e, values)]
  {
    MapOfInsert(t, i, e);
  }

  lemma PlacedKeepsInv(s: State, hash: Hasher, e: Entry)
    requires Inv(s, hash) && Encodable(e) && Resolvable(e, s.values)
    requires !HasKey(s.table, e.key) && s.entries < s.config.maxEntries && OffsetFits(s)
    ensures var (i, d) := Target(s, hash, e.key);
            i < s.config.n && Inv(Placed(s, hash, e, i, d), hash)
  {
    hide Encode, WriteSlot, PackSlot, SlotMatches, Chained, And;
    InsertKeepsTable(s, hash, e);
    var (i, d) := Target(s, hash, e.key);
    AddEntry(s.heap, s.config.n, s.config.offsetBits, hash, s.table, i, e);
  }

  lemma InsertThatFits(s: State, hash: Hasher, e: Entry)
    requires Inv(s, hash) && Encodable(e) && Resolvable(e, s.values)
    requires !HasKey(s.table, e.key) && s.entries < s.config.maxEntries && OffsetFits(s)
    ensures var (i, d) := Target(s, hash, e.key);
            && i < s.config.n
            && var (s', o) := Insert(s, hash, e, i, d);
            && o == Inserted(d) && Inv(s', hash)
            && s'.table == s.table[i := Some(e)] && s'.values == s.values && s'.entries == s.entries + 1
  {
    hide SlotMatches, WellFormed, WithinCollisions, AllResolvable, StopDistance, And, PackSlot, Encode, WriteSlot;
    OffsetCheck(s, hash);
    PlacedKeepsInv(s, hash, e);
  }

  lemma InsertTooFar(s: State, hash: Hasher, e: Entry, i: nat, d: nat)
    requires Inv(s, hash) && !OffsetFits(s) && i < s.config.n
    ensures var (s', o) := Insert(s, hash, e, i, d);
            && o == OffsetTooShort && Inv(s', hash)
            && s'.table == s.table && s'.values == s.values && s'.entries == s.entries
  {
    OffsetCheck(s, hash);
    RepresentsPrefix(s.heap, Encode(e), s.config.n, s.config.offsetBits, hash, s.table);
  }

  /** What an insertion does to the values of the state, whatever its pointer. */
  lemma PutStep(s: State, hash: Hasher, key: Key, kind: nat, value: seq<byte>)
    requires Inv(s, hash) && kind < 8
    ensures var (s', o) := Put(s, hash, key, kind, value);
            && Inv(s', hash)
            && OutcomeMeans(s, key in Contents(s), key, value, o)
            && (o.Inserted? ==>
                  && s'.entries == s.entries + 1
                  && Contents(s') == Contents(s)[key := Found(kind, value)])
            && (!o.Inserted? ==> s'.entries == s.entries && Contents(s') == Contents(s))
  {
    PutOutcome(s, hash, key, kind, value);
    ContentsKey(s.table, s.values, key);
    var (s', o) := Put(s, hash, key, kind, value);
    if s' != s {
      PutThatWrites(s, hash, key, kind, value);
      var e := Entry(key, kind, Store(s.values, value));
      if OffsetFits(s) {
        InsertKeepsTable(s, hash, e);
        InsertThatFits(s, hash, e);
      } else {
        var (i, d) := Target(s, hash, key);
        InsertTooFar(s, hash, e, i, d);
      }
    }
  }

  /** An insertion keeps the invariant, adds exactly the new pair when it succeeds and nothing
      otherwise, and fails for one of five reasons. It leaves the key-space pointer dangling exactly
      when the record was appended to a heap that moved, and then could not be addressed. */
  lemma PutCorrect(s: State, hash: Hasher, key: Key, kind: nat, value: seq<byte>)
    requires Inv(s, hash) && !s.dangling && kind < 8
    ensures var (s', o) := Put(s, hash, key, kind, value);
            && Inv(s', hash)
            && OutcomeMeans(s, key in Contents(s), key, value, o)
            && (o.Inserted? ==>
                  && s'.entries == s.entries + 1
                  && Contents(s') == Contents(s)[key := Found(kind, value)])
            && (!o.Inserted? ==> s'.entries == s.entries && Contents(s') == Contents(s))
            && (s'.dangling <==>
                  && o.OffsetTooShort?
                  && Memory.Reallocates(|s.heap|, s.capacity, RecordSize(s.values, key, value)))
  {
    hide Put, Inv, OutcomeMeans, RecordSize;
    PutStep(s, hash, key, kind, value);
    PutUses(s, hash, key, kind, value);
  }

  lemma ContentsOfInline(t: Table, values: Trailer.Values)
    requires Distinct(t) && AllResolvable(t, [])
    ensures AllResolvable(t, values)
    ensures ContentsOf(t, values) == ContentsOf(t, [])
  {
    forall key | key in EntryMap(t)
      ensures EntryMap(t)[key].stored.Inline?
    {
      var i :| 0 <= i < |t| && t[i].Some? && t[i].value.key == key;
      assert Resolvable(t[i].value, []);
    }
    hide EntryMap, Distinct;
  }

  /** Installing a table changes no answer; it is admitted once, before loading, up to 65536 values. */
  lemma InstallCorrect(s: State, hash: Hasher, values: Trailer.Values)
    requires Inv(s, hash)
    ensures var (s', o) := Install(s, values);
            && Inv(s', hash)
            && Contents(s') == Contents(s)
            && (o.Installed? <==> |values| <= 65536 && !s.loaded && !s.installed)
            && o == (if |values| > 65536 then TooManyValues else if s.loaded then AlreadyLoaded
                     else if s.installed then AlreadySet else Installed)
            && s' == if o.Installed? then s.(values := values, installed := true) else s
  {
    if |values| <= 65536 && !s.loaded && !s.installed {
      ContentsOfInline(s.table, values);
    }
  }

  /** What a search for a key of the cache reads is what the map holds. */
  lemma LookupReadsContents(s: State, hash: Hasher, key: Key)
    requires Inv(s, hash)
    ensures var home := Home(hash, key, s.config.n);
            var d := StopDistance(s.table, key, home, 0);
            && d < s.config.n
            && var cell := s.table[SlotFrom(home, d, s.config.n)];
            && (HasKey(s.table, key) <==> cell.Some?)
            && Lookup(s, key) == if cell.Some? then Some(Resolve(cell.value, s.values)) else None
  {
    SearchIsCorrect(s.table, hash, key);
    SearchReadsMap(s.table, hash, key);
    ContentsKey(s.table, s.values, key);
    EntryMapKey(s.table, key);
  }

  // ---------- the abstract first-write-wins map

  datatype Op = PutOp(key: Key, kind: nat, value: seq<byte>) | InstallOp(values: Trailer.Values)

  ghost predicate ValidOps(ops: seq<Op>) {
    forall i :: 0 <= i < |ops| && ops[i].PutOp? ==> ops[i].kind < 8
  }

  /** No insertion meets a dangling key-space pointer. */
  predicate Defined(s: State, hash: Hasher, ops: seq<Op>)
    requires ValidConfig(s.config) && |s.table| == s.config.n && 8 * s.config.n <= |s.heap|
    decreases |ops|
  {
    |ops| == 0 ||
    ((ops[0].PutOp? ==> !s.dangling) && Defined(Step(s, hash, ops[0]), hash, ops[1..]))
  }

  function Step(s: State, hash: Hasher, op: Op): (s': State)
    requires ValidConfig(s.config) && |s.table| == s.config.n && 8 * s.config.n <= |s.heap|
    ensures s'.config == s.config && |s'.table| == s.config.n && 8 * s.config.n <= |s'.heap|
  {
    match op
    case PutOp(key, kind, value) => Put(s, hash, key, kind, value).0
    case InstallOp(values) => Install(s, values).0
  }

  function Run(s: State, hash: Hasher, ops: seq<Op>): (s': State)
    requires ValidConfig(s.config) && |s.table| == s.config.n && 8 * s.config.n <= |s.heap|
    ensures s'.config == s.config && |s'.table| == s.config.n && 8 * s.config.n <= |s'.heap|
    decreases |ops|
  {
    if |ops| == 0 then s else Run(Step(s, hash, ops[0]), hash, ops[1..])
  }

  /** The specification: a map that never overwrites, and the sizes that decide what can be written. */
  datatype Abstract = Abstract(contents: map<Key, Found>, used: nat, capacity: nat, values: Trailer.Values, installed: bool)

  function Start(c: Config): Abstract {
    Abstract(map[], 0, 8 * c.n, [], false)
  }

  function RecordSize(values: Trailer.Values, key: Key, value: seq<byte>): nat {
    6 + |key| + match IndexOf(values, value)
      case None => |value|
      case Some(i) => if i < 256 then 1 else 2
  }

  predicate Storable(values: Trailer.Values, key: Key, value: seq<byte>) {
    |key| <= 65535 && (|value| < 0x100_0000 || value in values)
  }

  /** A new key is written while the map is below the entry limit. */
  predicate Writes(c: Config, a: Abstract, key: Key, value: seq<byte>) {
    |a.contents| < c.maxEntries && key !in a.contents && Storable(a.values, key, value)
  }

  /** The next record's place fits the offset bits. */
  predicate Addressable(c: Config, a: Abstract) {
    a.used + 8 < Pow2(c.offsetBits)
  }

  /** A record that cannot be addressed uses its bytes all the same. */
  function AbstractStep(c: Config, a: Abstract, op: Op): Abstract {
    match op
    case PutOp(key, kind, value) =>
      if !Writes(c, a, key, value) then a
      else
        var size := RecordSize(a.values, key, value);
        var a' := a.(used := a.used + size, capacity := Memory.CapacityAfter(8 * c.n + a.used, a.capacity, size));
        if Addressable(c, a) then a'.(contents := a.contents[key := Found(kind, value)]) else a'
    case InstallOp(values) =>
      if |values| <= 65536 && !a.installed then a.(values := values, installed := true) else a
  }

  function AbstractRun(c: Config, a: Abstract, ops: seq<Op>): Abstract
    decreases |ops|
  {
    if |ops| == 0 then a else AbstractRun(c, AbstractStep(c, a, ops[0]), ops[1..])
  }

  ghost predicate Refines(s: State, hash: Hasher, a: Abstract) {
    && Inv(s, hash) && !s.loaded
    && Contents(s) == a.contents && s.entries == |a.contents|
    && |s.heap| == 8 * s.config.n + a.used && s.capacity == a.capacity
    && s.values == a.values && s.installed == a.installed
  }

  lemma PutRefines(s: State, hash: Hasher, a: Abstract, key: Key, kind: nat, value: seq<byte>)
    requires Refines(s, hash, a) && kind < 8
    ensures Refines(Put(s, hash, key, kind, value).0, hash, AbstractStep(s.config, a, PutOp(key, kind, value)))
  {
    hide Put, SlotMatches, Chained, WithinCollisions, Contents, Count, RecordSize;
    var (s', o) := Put(s, hash, key, kind, value);
    var a' := AbstractStep(s.config, a, PutOp(key, kind, value));
    PutStep(s, hash, key, kind, value);
    PutUses(s, hash, key, kind, value);
    assert Contents(s') == a'.contents;
  }

  /** What an insertion leaves alone, and the bytes it uses. */
  lemma PutUses(s: State, hash: Hasher, key: Key, kind: nat, value: seq<byte>)
    requires Inv(s, hash) && kind < 8
    ensures var (s', o) := Put(s, hash, key, kind, value);
            && s'.config == s.config && s'.values == s.values
            && s'.installed == s.installed && s'.loaded == s.loaded
            && var size, wrote := RecordSize(s.values, key, value), o.Inserted? || o.OffsetTooShort?;
            && |s'.heap| == |s.heap| + (if wrote then size else 0)
            && s'.capacity == (if wrote then Memory.CapacityAfter(|s.heap|, s.capacity, size) else s.capacity)
            && s'.dangling == if o.OffsetTooShort? then Memory.Reallocates(|s.heap|, s.capacity, size) else s.dangling
  {
    hide SlotMatches, WellFormed, WithinCollisions, AllResolvable, StopDistance, And, PackSlot;
  }

  lemma StepRefines(s: State, hash: Hasher, a: Abstract, op: Op)
    requires Refines(s, hash, a) && (op.PutOp? ==> op.kind < 8)
    ensures Refines(Step(s, hash, op), hash, AbstractStep(s.config, a, op))
  {
    match op {
      case PutOp(key, kind, value) => PutRefines(s, hash, a, key, kind, value);
      case InstallOp(values) => InstallCorrect(s, hash, values);
    }
  }

  /** The machine on values follows the abstract map through any operations. */
  lemma {:induction false} MachineRefines(s: State, hash: Hasher, a: Abstract, ops: seq<Op>)
    requires Refines(s, hash, a) && ValidOps(ops)
    ensures Refines(Run(s, hash, ops), hash, AbstractRun(s.config, a, ops))
    decreases |ops|
  {
    if |ops| != 0 {
      StepRefines(s, hash, a, ops[0]);
      MachineRefines(Step(s, hash, ops[0]), hash, AbstractStep(s.config, a, ops[0]), ops[1..]);
    }
  }

  lemma FreshRefines(c: Config, hash: Hasher)
    requires ValidConfig(c)
    ensures Refines(Fresh(c), hash, Start(c))
  {
    FreshInv(c, hash);
  }

  /** Every run in which no insertion meets a dangling pointer keeps the invariant and holds exactly
      what the abstract map holds. */
  lemma RunRefines(c: Config, hash: Hasher, ops: seq<Op>)
    requires ValidConfig(c) && ValidOps(ops) && Defined(Fresh(c), hash, ops)
    ensures Refines(Run(Fresh(c), hash, ops), hash, AbstractRun(c, Start(c), ops))
  {
    FreshRefines(c, hash);
    MachineRefines(Fresh(c), hash, Start(c), ops);
  }

  // ---------- writing and loading

  /** Whether the table of frequent values is written and read back whole. */
  ghost predicate TableSurvives(cacheType: CacheType, values: Trailer.Values) {
    values == [] || (cacheType != LinearProbe && |values| < 65536 && Trailer.AllShort(values))
  }

  lemma {:induction false} ConcatBound(values: Trailer.Values)
    requires Trailer.AllShort(values)
    ensures |Trailer.Concat(values)| <= |values| * TWO32
  {
    if |values| != 0 {
      ConcatBound(values[..|values| - 1]);
    }
  }

  lemma ShortTableFits(values: Trailer.Values)
    requires |values| <= 65536 && Trailer.AllShort(values)
    ensures Trailer.TrailerSize(values) < TWO64
  {
    ConcatBound(values);
  }

  function Reloaded(s: State): Option<State> {
    Load(s.config, OutputImage(s), s.table, s.entries, s.maxCollisions)
  }

  /** No record refers to the table. */
  ghost predicate AllInline(t: Table) {
    forall i :: 0 <= i < |t| && t[i].Some? ==> t[i].value.stored.Inline?
  }

  /** Loading succeeds unless a length was cut, and gives the table back or an empty one. */
  lemma LoadedTable(s: State, hash: Hasher)
    requires Inv(s, hash) && !s.loaded && Trailer.TrailerSize(s.values) < TWO64
    ensures Reloaded(s).Some? <==>
            s.config.cacheType == LinearProbe || |s.values| == 65536 || Trailer.AllShort(s.values)
    ensures Reloaded(s).Some? ==>
              Reloaded(s).value.values == if TableSurvives(s.config.cacheType, s.values) then s.values else []
  {
    if s.config.cacheType != LinearProbe {
      if s.installed {
        Trailer.ParseOfOutput(s.heap, s.values);
      } else {
        Trailer.ParseOfOutput(s.heap, []);
        assert Trailer.Output([]) == ToLe(0, 8);
      }
    }
  }

  /** Loading brings the table back exactly when it survives: the type writes a trailer, the count
      fits its 16 bits and every length its 32. */
  lemma TableComesBack(s: State, hash: Hasher)
    requires Inv(s, hash) && !s.loaded && Trailer.TrailerSize(s.values) < TWO64
    ensures Reloaded(s).Some? && Reloaded(s).value.values == s.values
            <==> TableSurvives(s.config.cacheType, s.values)
  {
    LoadedTable(s, hash);
  }

  /** A loaded cache has room for no insertion and is written again byte for byte. It is well-formed
      exactly when the table survives or no record refers to it, and then it holds the same map. */
  lemma ReloadKeepsContents(s: State, hash: Hasher)
    requires Inv(s, hash) && !s.loaded && Trailer.TrailerSize(s.values) < TWO64
    requires Reloaded(s).Some?
    ensures var l := Reloaded(s).value;
            && (Inv(l, hash) <==> TableSurvives(s.config.cacheType, s.values) || AllInline(s.table))
            && (Inv(l, hash) ==> Contents(l) == Contents(s))
            && !l.dangling && l.config.maxEntries == 0 && l.maxCollisions == s.maxCollisions
            && OutputImage(l) == OutputImage(s)
  {
    hide Represents, WithinCollisions, AllResolvable, AllInline, TableSurvives, Trailer.Output, Trailer.Parse;
    LoadedTable(s, hash);
    var l := Reloaded(s).value;
    var trailer := OutputImage(s)[|s.heap|..];
    assert OutputImage(s) == s.heap + trailer;
    RepresentsPrefix(s.heap, trailer, s.config.n, s.config.offsetBits, hash, s.table);
    InlineResolves(s.table);
    if AllInline(s.table) {
      ContentsOfInline(s.table, s.values);
    }
  }

  lemma InlineResolves(t: Table)
    ensures AllInline(t) <==> AllResolvable(t, [])
  {
  }

  /** A record of an index, read without the table, gives as many bytes as the value had, starting
      with the index itself, or reaches beyond the image. */
  lemma IndexedReadsRaw(heap: seq<byte>, pos: nat, e: Entry)
    requires Encodable(e) && RecordAt(heap, pos, e) && !e.stored.Inline?
    ensures var at, size, width := pos + 6 + |e.key|, SizeField(e.stored), |Payload(e.stored)|;
            && at + width <= |heap| && heap[at..at + width] == ToLe(e.stored.index, width)
            && ReadRecord(heap, pos, []) == if |heap| < at + size then None else Some(Found(e.kind, heap[at..at + size]))
  {
    hide Le, ToLe, And, Encode;
    DecodeOfEncode(heap, pos, e);
  }

  /** Where the record of slot i is. */
  ghost function RecordPosition(s: State, i: nat): nat
    requires ValidConfig(s.config) && 8 * s.config.n <= |s.heap| && i < s.config.n
  {
    And(SlotWord(s.heap, i), OffsetMask(s.config.offsetBits)) + KeyspaceSizeOffset(s.config.n)
  }

  ghost function ReadSlot(s: State, i: nat): Option<Found>
    requires ValidConfig(s.config) && 8 * s.config.n <= |s.heap| && i < s.config.n
  {
    ReadRecord(s.heap, RecordPosition(s, i), s.values)
  }

  /** What a lookup gives: no such key, a read outside the heap or the table, or type and bytes. */
  datatype Answer = Absent | Outside | Answered(found: Found)

  ghost function AnswerTo(s: State, hash: Hasher, key: Key): Answer
    requires ValidConfig(s.config) && |s.table| == s.config.n && 8 * s.config.n <= |s.heap|
  {
    var (i, d) := Target(s, hash, key);
    if d == s.config.n || s.table[i].None? then Absent else
      match ReadSlot(s, i)
      case None => Outside
      case Some(found) => Answered(found)
  }

  ghost predicate SameAnswers(s: State, l: State, hash: Hasher)
    requires ValidConfig(s.config) && |s.table| == s.config.n && 8 * s.config.n <= |s.heap|
    requires ValidConfig(l.config) && |l.table| == l.config.n && 8 * l.config.n <= |l.heap|
  {
    forall key :: AnswerTo(l, hash, key) == AnswerTo(s, hash, key)
  }

  lemma SlotReads(s: State, hash: Hasher, i: nat)
    requires Inv(s, hash) && i < s.config.n && s.table[i].Some?
    ensures Encodable(s.table[i].value) && RecordAt(s.heap, RecordPosition(s, i), s.table[i].value)
    ensures ReadSlot(s, i) == Some(Resolve(s.table[i].value, s.values))
  {
    hide ReadRecord, And, Encode, WellFormed, WithinCollisions, RecordAt, SlotWord, OffsetMask, HashcodeMask;
    assert SlotMatches(s.heap, s.config.n, s.config.offsetBits, hash, i, s.table[i]);
    ReadOfEncode(s.heap, RecordPosition(s, i), s.table[i].value, s.values);
  }

  /** While the invariant holds, lookups answer from the abstract contents. */
  lemma AnswersAreContents(s: State, hash: Hasher, key: Key)
    requires Inv(s, hash)
    ensures AnswerTo(s, hash, key) == match Lookup(s, key)
              case None => Absent
              case Some(found) => Answered(found)
  {
    hide Inv, Lookup, ReadSlot, StopDistance;
    InvParts(s, hash);
    LookupReadsContents(s, hash, key);
    var (i, d) := Target(s, hash, key);
    if s.table[i].Some? {
      SlotReads(s, hash, i);
    }
  }

  lemma InvParts(s: State, hash: Hasher)
    requires Inv(s, hash)
    ensures ValidConfig(s.config) && |s.table| == s.config.n && 8 * s.config.n <= |s.heap|
    ensures Distinct(s.table) && AllResolvable(s.table, s.values)
  {
    hide SlotMatches, Distinct, Chained, AllResolvable, WithinCollisions;
  }

  /** Without the table the record of a value reads the same: the value is in the record, or the
      index and the bytes behind it happen to be the value. */
  ghost predicate ReadsItself(image: seq<byte>, pos: nat, e: Entry, values: Trailer.Values)
    requires Resolvable(e, values)
  {
    var at, size := pos + 6 + |e.key|, SizeField(e.stored);
    e.stored.Inline? || (at + size <= |image| && image[at..at + size] == Resolve(e, values).bytes)
  }

  /** Loading keeps the heap in front of the trailer, and the slots. */
  lemma LoadedHeap(s: State)
    requires !s.loaded && Reloaded(s).Some?
    ensures var l := Reloaded(s).value;
            && l.config == s.config.(maxEntries := 0) && l.table == s.table
            && |s.heap| <= |l.heap| && l.heap[..|s.heap|] == s.heap
  {
    hide Trailer.Output, Trailer.Parse;
  }

  /** The loaded cache has the slots and the records of the one that was written. */
  lemma LoadedSlots(s: State, hash: Hasher, i: nat)
    requires Inv(s, hash) && !s.loaded && Reloaded(s).Some? && i < s.config.n
    ensures var l := Reloaded(s).value;
            && ValidConfig(l.config) && l.table == s.table && l.config.n == s.config.n && 8 * s.config.n <= |l.heap|
            && (s.table[i].Some? ==> RecordPosition(l, i) == RecordPosition(s, i)
                                     && RecordAt(l.heap, RecordPosition(l, i), s.table[i].value))
  {
    hide And, Encode, Le, Inv, OffsetMask, Reloaded, KeyspaceSizeOffset;
    InvParts(s, hash);
    LoadedHeap(s);
    var l := Reloaded(s).value;
    SliceOfSlice(l.heap, 0, |s.heap|, 8 * i, 8 * i + 8);
    if s.table[i].Some? {
      SlotReads(s, hash, i);
      var pos := RecordPosition(s, i);
      SliceOfSlice(l.heap, 0, |s.heap|, pos, pos + |Encode(s.table[i].value)|);
    }
  }

  /** What a lost table means for a record: an inline value stays; instead of a de-duplicated one, the
      bytes from its index on are read, which may go beyond the image. The answer is kept exactly when
      these bytes are the value. */
  lemma LostTable(s: State, hash: Hasher, i: nat)
    requires Inv(s, hash) && !s.loaded && Trailer.TrailerSize(s.values) < TWO64 && Reloaded(s).Some?
    requires !TableSurvives(s.config.cacheType, s.values)
    requires i < s.config.n && s.table[i].Some?
    ensures var l, e := Reloaded(s).value, s.table[i].value;
            && ValidConfig(l.config) && l.table == s.table && l.config.n == s.config.n && 8 * s.config.n <= |l.heap|
            && var at, size := RecordPosition(l, i) + 6 + |e.key|, SizeField(e.stored);
            && (!e.stored.Inline? ==>
                  ReadSlot(l, i) == if |l.heap| < at + size then None else Some(Found(e.kind, l.heap[at..at + size])))
            && Resolvable(e, s.values)
            && (ReadSlot(l, i) == ReadSlot(s, i) <==> ReadsItself(l.heap, RecordPosition(l, i), e, s.values))
  {
    hide ReadRecord, RecordAt, Inv, TableSurvives, Reloaded, RecordPosition;
    InvParts(s, hash);
    var l, e := Reloaded(s).value, s.table[i].value;
    LoadedTable(s, hash);
    LoadedSlots(s, hash, i);
    SlotReads(s, hash, i);
    if e.stored.Inline? {
      ReadOfEncode(l.heap, RecordPosition(l, i), e, l.values);
    } else {
      IndexedReadsRaw(l.heap, RecordPosition(l, i), e);
    }
  }

  /** Every record reads the same without the table. */
  ghost predicate AllReadThemselves(s: State, image: seq<byte>)
    requires ValidConfig(s.config) && |s.table| == s.config.n && 8 * s.config.n <= |s.heap|
    requires AllResolvable(s.table, s.values)
  {
    forall i :: 0 <= i < |s.table| && s.table[i].Some? ==>
      ReadsItself(image, RecordPosition(s, i), s.table[i].value, s.values)
  }

  lemma OwnSlot(s: State, hash: Hasher, i: nat)
    requires Inv(s, hash) && i < s.config.n && s.table[i].Some?
    ensures Target(s, hash, s.table[i].value.key).0 == i && Target(s, hash, s.table[i].value.key).1 < s.config.n
  {
    hide SlotMatches, Chained, WithinCollisions, AllResolvable;
    SearchIsCorrect(s.table, hash, s.table[i].value.key);
  }

  /** A lookup without the table is the reading of one slot. */
  lemma LostAnswer(s: State, hash: Hasher, key: Key)
    requires Inv(s, hash) && !s.loaded && Trailer.TrailerSize(s.values) < TWO64 && Reloaded(s).Some?
    requires !TableSurvives(s.config.cacheType, s.values)
    ensures var l := Reloaded(s).value;
            && ValidConfig(l.config) && l.table == s.table && l.config.n == s.config.n && 8 * s.config.n <= |l.heap|
            && AllResolvable(s.table, s.values)
            && var (i, d) := Target(s, hash, key);
            && i < |s.table| && d < |s.table|
            && (AnswerTo(l, hash, key) == AnswerTo(s, hash, key) <==>
                  s.table[i].Some? ==> ReadsItself(l.heap, RecordPosition(s, i), s.table[i].value, s.values))
  {
    hide Inv, TableSurvives, Reloaded, ReadSlot, RecordPosition, ReadsItself, StopDistance;
    InvParts(s, hash);
    LookupReadsContents(s, hash, key);
    var (i, d) := Target(s, hash, key);
    LoadedSlots(s, hash, i);
    if s.table[i].Some? {
      SlotReads(s, hash, i);
      LostTable(s, hash, i);
    }
  }

  /** Writing and loading keeps every answer exactly when the table survives, or every record reads
      the same without it. */
  lemma AnswersSurvive(s: State, hash: Hasher)
    requires Inv(s, hash) && !s.loaded && Trailer.TrailerSize(s.values) < TWO64 && Reloaded(s).Some?
    ensures var l := Reloaded(s).value;
            && ValidConfig(l.config) && l.table == s.table && l.config.n == s.config.n && 8 * s.config.n <= |l.heap|
            && ValidConfig(s.config) && |s.table| == s.config.n && 8 * s.config.n <= |s.heap|
            && AllResolvable(s.table, s.values)
            && (SameAnswers(s, l, hash) <==>
                  TableSurvives(s.config.cacheType, s.values) || AllReadThemselves(s, l.heap))
  {
    hide Inv, TableSurvives, Reloaded, ReadSlot, RecordPosition, ReadsItself, AnswerTo;
    InvParts(s, hash);
    LoadedSlots(s, hash, 0);
    var l := Reloaded(s).value;
    if TableSurvives(s.config.cacheType, s.values) {
      ReloadKeepsContents(s, hash);
      forall key
        ensures AnswerTo(l, hash, key) == AnswerTo(s, hash, key)
      {
        AnswersAreContents(s, hash, key);
        AnswersAreContents(l, hash, key);
      }
    } else {
      forall key
        ensures AllReadThemselves(s, l.heap) ==> AnswerTo(l, hash, key) == AnswerTo(s, hash, key)
      {
        LostAnswer(s, hash, key);
      }
      forall i | 0 <= i < |s.table| && s.table[i].Some?
        ensures SameAnswers(s, l, hash) ==> ReadsItself(l.heap, RecordPosition(s, i), s.table[i].value, s.values)
      {
        OwnSlot(s, hash, i);
        LostAnswer(s, hash, s.table[i].value.key);
      }
    }
  }

  /** The life of a cache. For every run of operations from a fresh cache, and every table that
      survives, the cache loaded from the written image holds the abstract first-write-wins map. */
  lemma WholeLife(c: Config, hash: Hasher, ops: seq<Op>)
    requires ValidConfig(c) && ValidOps(ops) && Defined(Fresh(c), hash, ops)
    requires TableSurvives(c.cacheType, AbstractRun(c, Start(c), ops).values)
    ensures var s := Run(Fresh(c), hash, ops);
            && Inv(s, hash)
            && Reloaded(s).Some?
            && var l := Reloaded(s).value;
            && Inv(l, hash)
            && Contents(l) == Contents(s) == AbstractRun(c, Start(c), ops).contents
            && OutputImage(l) == OutputImage(s)
  {
    RunRefines(c, hash, ops);
    ShortTableFits(Run(Fresh(c), hash, ops).values);
    TableComesBack(Run(Fresh(c), hash, ops), hash);
    ReloadKeepsContents(Run(Fresh(c), hash, ops), hash);
  }

  /** What is lost otherwise: a LinearProbe cache writes no trailer, so after loading, the record of
      a value that its table held is read as if the bytes were there, beyond the end of the image. */
  lemma LinearProbeLosesTable(hash: Hasher)
    ensures var c := Config(2, 16, 1, LinearProbe);
            var s := Put(Install(Fresh(c), [[1, 2]]).0, hash, [], 0, [1, 2]).0;
            && Inv(s, hash) && Contents(s) == map[[] := Found(0, [1, 2])]
            && Reloaded(s).Some? && Reloaded(s).value.heap == s.heap
            && ReadRecord(s.heap, 16, s.values) == Some(Found(0, [1, 2]))
            && ReadRecord(s.heap, 16, Reloaded(s).value.values).None?
  {
    hide Inv, Put, ReadRecord, OutcomeMeans;
    var c := Config(2, 16, 1, LinearProbe);
    var s0 := Install(Fresh(c), [[1, 2]]).0;
    FreshInv(c, hash);
    InstallCorrect(Fresh(c), hash, [[1, 2]]);
    LosingRecord(s0, hash);
    PutStep(s0, hash, [], 0, [1, 2]);
    PutUses(s0, hash, [], 0, [1, 2]);
  }

  lemma LosingRecord(s: State, hash: Hasher)
    requires Inv(s, hash) && s.config.n == 2 && s.config.offsetBits == 16 && s.config.maxEntries == 1
    requires |s.heap| == 16 && s.entries == 0 && s.values == [[1, 2]] && Contents(s) == map[]
    ensures var (s', o) := Put(s, hash, [], 0, [1, 2]);
            && o.Inserted?
            && ReadRecord(s'.heap, 16, [[1, 2]]) == Some(Found(0, [1, 2]))
            && ReadRecord(s'.heap, 16, []).None?
  {
    hide SlotMatches, WellFormed, WithinCollisions, AllResolvable, WriteSlot, PackSlot, Encode, And;
    var e := Entry([], 0, ShortIndex(0, 2));
    var (i, d) := Target(s, hash, []);
    assert Store([[1, 2]], [1, 2]) == ShortIndex(0, 2);
    ContentsKey(s.table, s.values, []);
    PutCases(s, hash, [], 0, [1, 2]);
    assert Pow(2, 4) == 16;
    PowMonotonic(2, 4, 16);
    OffsetCheck(s, hash);
    var s' := Put(s, hash, [], 0, [1, 2]).0;
    assert s' == Placed(s, hash, e, i, d);
    WriteSlotFrame(s.heap + Encode(e), i, PackSlot(hash([]), 8, 16), 16, 23);
    SliceOfConcat(s.heap, Encode(e), 16, 23);
    RawReadFails(s'.heap, e);
  }

  lemma RawReadFails(heap: seq<byte>, e: Entry)
    requires |heap| == 23 && e == Entry([], 0, ShortIndex(0, 2)) && RecordAt(heap, 16, e)
    ensures ReadRecord(heap, 16, [[1, 2]]) == Some(Found(0, [1, 2]))
    ensures ReadRecord(heap, 16, []).None?
  {
    ReadOfEncode(heap, 16, e, [[1, 2]]);
    SizeInRecord(heap, e);
    hide And, Le, Encode;
  }

  lemma SizeInRecord(heap: seq<byte>, e: Entry)
    requires |heap| == 23 && e == Entry([], 0, ShortIndex(0, 2)) && RecordAt(heap, 16, e)
    ensures Le(heap[16..18]) == 0 && Le(heap[18..22]) / 256 == 2
  {
    hide Le, Encode, And;
    DecodeOfEncode(heap, 16, e);
  }
}
