/** The cache as a state machine on values: what each operation does to the bytes of the heap, the
    table they represent and the counters of the header. */
module CacheModel {
  import opened Powers
  import opened Bits
  import opened Bytes
  import opened Records
  import opened ProbeTable
  import Memory
  import Trailer

  datatype CacheType = NoCache | MapCache | BucketChain | LinearProbe | LinearProbeDedup | LinearProbeDedupTyped

  datatype Config = Config(n: nat, offsetBits: nat, maxEntries: nat, cacheType: CacheType)

  /** dangling: a failed insertion moved the heap and left the key-space pointer on freed memory. */
  datatype State = State(
    config: Config,
    heap: seq<byte>,
    capacity: nat,
    dangling: bool,
    table: Table,
    entries: nat,
    maxCollisions: nat,
    values: Trailer.Values,
    installed: bool,
    loaded: bool)

  datatype Outcome =
    | Inserted(collisions: nat)
    | KeyExists(collisions: nat)
    | KeySpaceFull
    | KeyTooLong
    | ValueTooLong
    | OffsetTooShort

  /** A slot array with its type of cache; the entry limit leaves a slot free. */
  predicate ValidConfig(c: Config) {
    && 0 < c.n
    && MIN_OFFSET_BITS <= c.offsetBits <= MAX_OFFSET_BITS
    && c.maxEntries < c.n
  }

  function Fresh(c: Config): State {
    State(c, seq(8 * c.n, _ => 0), 8 * c.n, false, seq(c.n, _ => None), 0, 0, [], false, false)
  }

  // ---------- operations

  /** The index the table of frequent values gives to a value: that of its first occurrence. */
  function IndexOf(values: Trailer.Values, value: seq<byte>): (r: Option<nat>)
    ensures r.Some? ==> r.value < |values| && values[r.value] == value
    ensures r.Some? ==> forall i :: 0 <= i < r.value ==> values[i] != value
    ensures r.None? ==> value !in values
  {
    if |values| == 0 then None else
      var m := |values| - 1;
      var r := IndexOf(values[..m], value);
      if r.Some? then r else if values[m] == value then Some(m) else None
  }

  function Store(values: Trailer.Values, value: seq<byte>): Stored {
    match IndexOf(values, value)
    case None => Inline(value)
    case Some(i) => if i < 256 then ShortIndex(i, |value|) else LongIndex(i, |value|)
  }

  function Max(a: nat, b: nat): nat {
    if a < b then b else a
  }

  /** The record goes to the end of the heap first; only then is its offset checked. */
  function Append(s: State, e: Entry): State {
    s.(heap := s.heap + Encode(e),
       capacity := Memory.CapacityAfter(|s.heap|, s.capacity, |Encode(e)|))
  }

  /** The record appended, its packed offset in slot i, and the counters updated. */
  function Placed(s: State, hash: Hasher, e: Entry, i: nat, d: nat): State
    requires ValidConfig(s.config) && |s.table| == s.config.n && 8 * s.config.n <= |s.heap|
    requires i < s.config.n
  {
    var slot := PackSlot(hash(e.key), |s.heap| - KeyspaceSizeOffset(s.config.n), s.config.offsetBits);
    Append(s, e).(
      heap := WriteSlot(s.heap + Encode(e), i, slot),
      table := s.table[i := Some(e)],
      entries := s.entries + 1,
      maxCollisions := Max(d, s.maxCollisions))
  }

  function Insert(s: State, hash: Hasher, e: Entry, i: nat, d: nat): (State, Outcome)
    requires ValidConfig(s.config) && |s.table| == s.config.n && 8 * s.config.n <= |s.heap|
    requires i < s.config.n
  {
    var offset := |s.heap| - KeyspaceSizeOffset(s.config.n);
    if And(offset, OffsetMask(s.config.offsetBits)) == offset then (Placed(s, hash, e, i, d), Inserted(d))
    else (Append(s, e).(dangling := Memory.Reallocates(|s.heap|, s.capacity, |Encode(e)|)), OffsetTooShort)
  }

  /** A new key whose search ended at slot i: the sizes are checked, then the record is written. */
  function PutNew(s: State, hash: Hasher, key: Key, kind: nat, value: seq<byte>, i: nat, d: nat): (State, Outcome)
    requires ValidConfig(s.config) && |s.table| == s.config.n && 8 * s.config.n <= |s.heap|
    requires i < s.config.n
  {
    var e := Entry(key, kind, Store(s.values, value));
    if |key| > MAX_KEY_LENGTH then (s, KeyTooLong)
    else if e.stored.Inline? && |value| > MAX_VALUE_LENGTH then (s, ValueTooLong)
    else Insert(s, hash, e, i, d)
  }

  function Put(s: State, hash: Hasher, key: Key, kind: nat, value: seq<byte>): (State, Outcome)
    requires ValidConfig(s.config) && |s.table| == s.config.n && 8 * s.config.n <= |s.heap|
  {
    var n := s.config.n;
    if s.entries >= s.config.maxEntries then (s, KeySpaceFull) else
      var home := Home(hash, key, n);
      var d := StopDistance(s.table, key, home, 0);
      if d == n || s.table[SlotFrom(home, d, n)].Some? then (s, KeyExists(d + 1))
      else PutNew(s, hash, key, kind, value, SlotFrom(home, d, n), d)
  }

  datatype InstallOutcome = Installed | TooManyValues | AlreadyLoaded | AlreadySet

  function Install(s: State, values: Trailer.Values): (r: (State, InstallOutcome)) {
    if |values| > Trailer.MAX_DUPLICATED_VALUES then (s, TooManyValues)
    else if s.loaded then (s, AlreadyLoaded)
    else if s.installed then (s, AlreadySet)
    else (s.(values := values, installed := true), Installed)
  }

  /** The image written to a file, after the header. */
  function OutputImage(s: State): seq<byte> {
    if s.config.cacheType == LinearProbe || s.loaded then s.heap
    else if s.installed then s.heap + Trailer.Output(s.values)
    else s.heap + ToLe(0, 8)
  }

  /** A cache over an image: the header brings back the counters, and the table of frequent values
      is parsed for every type but LinearProbe. */
  function Load(c: Config, image: seq<byte>, table: Table, entries: nat, maxCollisions: nat): (r: Option<State>)
  {
    var s := State(c.(maxEntries := 0), image, |image|, false, table, entries, maxCollisions, [], false, false);
    if c.cacheType == LinearProbe then Some(s) else
      match Trailer.Parse(image)
      case Loaded(values) => Some(s.(values := values, loaded := true))
      case _ => None
  }

  // ---------- lookups, decoded from bytes

  datatype Found = Found(kind: nat, bytes: seq<byte>)

  /** Decodes the record at pos; None stands for a read outside the heap or the table. */
  function ReadRecord(heap: seq<byte>, pos: nat, values: Trailer.Values): Option<Found> {
    if |heap| < pos + RECORD_HEADER then None else
      var keySize := Le(heap[pos..pos + 2]);
      var info := Le(heap[pos + 2..pos + 6]);
      var dedup, kind, size := info % 32, info / 32 % 8, info / 256;
      var at := pos + RECORD_HEADER + keySize;
      if And(dedup, DEDUP_FLAG) != 0 && values != [] then
        ReadIndexed(heap, at, 1, kind, values)
      else if And(dedup, DEDUP_EXTENDED_FLAG) != 0 && values != [] then
        ReadIndexed(heap, at, 2, kind, values)
      else if |heap| < at + size then None
      else Some(Found(kind, heap[at..at + size]))
  }

  function ReadIndexed(heap: seq<byte>, at: nat, width: nat, kind: nat, values: Trailer.Values): Option<Found> {
    if |heap| < at + width then None else
      var index := Le(heap[at..at + width]);
      if index < |values| then Some(Found(kind, values[index])) else None
  }

  // ---------- the invariant and the abstract map

  /** Every index that a record holds leads into the table of frequent values. */
  predicate Resolvable(e: Entry, values: Trailer.Values) {
    e.stored.Inline? || e.stored.index < |values|
  }

  function Resolve(e: Entry, values: Trailer.Values): Found
    requires Resolvable(e, values)
  {
    Found(e.kind, match e.stored
      case Inline(bytes) => bytes
      case ShortIndex(index, _) => values[index]
      case LongIndex(index, _) => values[index])
  }

  ghost predicate AllResolvable(t: Table, values: Trailer.Values) {
    forall i :: 0 <= i < |t| && t[i].Some? ==> Resolvable(t[i].value, values)
  }

  ghost predicate Inv(s: State, hash: Hasher) {
    && ValidConfig(s.config)
    && Represents(s.heap, s.config.n, s.config.offsetBits, hash, s.table)
    && WellFormed(s.table, hash)
    && Count(s.table) == s.entries
    && WithinCollisions(s.table, hash, s.maxCollisions)
    && AllResolvable(s.table, s.values)
    && |s.values| <= Trailer.MAX_DUPLICATED_VALUES
    && (s.installed || s.loaded || s.values == [])
    && |s.heap| <= s.capacity
  }

  /** What the cache holds: type and bytes of every key. */
  ghost function Contents(s: State): map<Key, Found>
    requires Distinct(s.table) && AllResolvable(s.table, s.values)
  {
    ContentsOf(s.table, s.values)
  }

  /** The answer to a lookup. */
  ghost function Lookup(s: State, key: Key): Option<Found>
    requires Distinct(s.table) && AllResolvable(s.table, s.values)
  {
    if key in Contents(s) then Some(Contents(s)[key]) else None
  }

  ghost function ContentsOf(t: Table, values: Trailer.Values): map<Key, Found>
    requires Distinct(t) && AllResolvable(t, values)
  {
    assert forall key :: key in EntryMap(t) ==> Resolvable(EntryMap(t)[key], values);
    map key | key in EntryMap(t) :: Resolve(EntryMap(t)[key], values)
  }

  lemma ContentsKey(t: Table, values: Trailer.Values, key: Key)
    requires Distinct(t) && AllResolvable(t, values)
    ensures key in ContentsOf(t, values) <==> HasKey(t, key)
    ensures HasKey(t, key) ==> ContentsOf(t, values)[key] == Resolve(EntryMap(t)[key], values)
  {
  }

  // ---------- what reading a record finds

  /** Decoding an encoded record with the table it was made for gives type and value back. */
  lemma ReadOfEncode(heap: seq<byte>, pos: nat, e: Entry, values: Trailer.Values)
    requires Encodable(e) && RecordAt(heap, pos, e) && Resolvable(e, values)
    ensures ReadRecord(heap, pos, values) == Some(Resolve(e, values))
  {
    hide Le, ToLe, And, Encode;
    DecodeOfEncode(heap, pos, e);
    FlagBits();
    match e.stored {
      case Inline(bytes) =>
      case ShortIndex(index, _) => IndexReads(index, 1, e);
      case LongIndex(index, _) => IndexReads(index, 2, e);
    }
  }

  lemma FlagBits()
    ensures And(DEDUP_FLAG, DEDUP_FLAG) != 0
    ensures And(0, DEDUP_FLAG) == 0 && And(0, DEDUP_EXTENDED_FLAG) == 0
    ensures And(DEDUP_EXTENDED_FLAG, DEDUP_FLAG) == 0 && And(DEDUP_EXTENDED_FLAG, DEDUP_EXTENDED_FLAG) != 0
  {
    assert And(16, 16) == 16 && And(0, 16) == 0 && And(1, 16) == 0;
    assert And(0, 1) == 0 && And(1, 1) == 1;
  }

  lemma IndexReads(index: nat, width: nat, e: Entry)
    requires Encodable(e) && !e.stored.Inline? && e.stored.index == index
    requires width == if e.stored.ShortIndex? then 1 else 2
    ensures Le(ToLe(index, width)) == index
  {
    hide Le, ToLe;
    assert Pow(256, 1) == 256 && Pow(256, 2) == 0x1_0000;
    LeOfToLe(index, width);
  }
}
