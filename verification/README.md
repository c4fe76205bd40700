# AxonCache: verified model

AxonCache is a write-once hash table over an append-only heap of records. It is saved as a byte
image, loaded again and looked up in place. This project models its store, the pieces its store
rests on, and the two bundled algorithms with the hardest arithmetic and buffering, and proves them
against independent specifications.

- **The store.** `Bits`, `Bytes` and `Records` give the packed 64-bit slots and the records byte for
  byte. `ProbeTable` is the theory of a linearly probed table; `Probe` has the two search loops.
  `Memory` is the growing buffer. `Trailer` writes the table of frequent values behind the records
  and parses it backwards from the end of the image. `CacheModel` is the state machine on values,
  `DedupCache` the objects that run it, and `CacheLife` the theorems over whole runs: every run is a
  first-write-wins map, and writing and loading the image brings that map back. `ImageFormat` says in
  positions and place values which bytes an insertion writes. `DefinedRuns` says
  which runs read no freed memory, and `Deduplication` when the table of frequent values is
  transparent.
- **The decimal parser.** `BigInt` and `BigIntOps` are the 62-limb integer. `Rounding` says what the
  nearest float is (section 4.3.1 of IEEE 754-2019) and `DigitComparison` shows that the two exact
  comparisons find it. `Digits` has the eight-digits-at-once reader, `IntegerText` the integer
  parser, `NumberText` the scan of a literal, `Mantissa` the big mantissa, and `SlowPath` puts them
  together: any number of digits times a power of ten is rounded correctly, because no float and no
  midpoint has as many digits as are kept. `Literal` goes from the text to the float: the answer is the
  nearest float to the number as written for every literal whose exponent is not cut, and for every
  literal of less than 2^28 - 400 digits; for the others there is an exact condition.
- **The hash.** `XxhStream` and `Xxh3Stream` run the streaming forms against the one-shot forms. The
  mixing rounds are parameters; buffers, stripes, blocks, secret offsets and counters are not.
- **The reader's reload.** `ReaderReload` is a state machine over the shared accesses of one reloader
  and any number of lookups.
- **The string-list codec.** `StringList`.

`Powers` holds the arithmetic the others need. `dafny verify dfyconfig.toml` checks everything.

## What the proofs found

- A table of exactly 65536 frequent values is admitted by the setter, but its count is cast to 16
  bits when it is written, so it reads back as empty (`Trailer.TrailerRoundTrip`,
  `CacheLife.TableComesBack`).
- A cache whose type is plain linear probe writes no trailer, so a table of frequent values that was
  installed in it does not come back either.
- When the table is lost, a record that holds an index is read as if its value were there: as many
  bytes as the value had, from the index on, which may reach beyond the image
  (`CacheLife.LostTable`, `CacheLife.LinearProbeLosesTable`). All answers are kept exactly when the
  table comes back or each of these reads happens to give the value (`CacheLife.AnswersSurvive`).
- An insertion whose record cannot be addressed fails after the heap has grown. Its bytes stay
  behind unused, and if the heap was moved, the key-space pointer is left on freed memory, where the
  next insertion reads. Three insertions suffice (`DefinedRuns.DanglingIsReachable`). Sizes alone
  decide which runs are free of it (`DefinedRuns.DefinedExactly`).
- A cache with a table of frequent values can admit an insertion that a cache without one refuses: a
  value of 2^24 bytes is stored as an index (`Deduplication.TableAdmitsMore`). The two hold the same
  exactly as long as no insertion is treated differently (`Deduplication.DedupIsTransparent`).
- The comment in `include/axoncache/cache/probe/LinearProbe.h` line 18 puts the de-duplication bits
  left of the type. With the little-endian bit-field layout the code is compiled for they are the low
  five bits of that byte, and the type is the high three. The model follows the code.
- Parsing an integer accepts some literals that do not fit: those that wrap to a word which looks safe
  and fits the type. In base 10 this happens only for `uint64`, in other bases for `int64` too, and
  for smaller types in none (`IntegerText.MisreadExactly`, `IntegerText.DecimalIsExact`,
  `IntegerText.SmallTypesAreExact`, `IntegerText.MisreadWitnesses`).
- An exponent whose digits before the last reach 2^28 is cut; then the scan no longer brackets the
  literal unless it is zero (`NumberText.ScanBracketsLiteral`, `NumberText.SaturationHappens`). The
  rounded answer is wrong only where the number as read and the number as written do not both vanish or
  both overflow (`Literal.CutRounds`). That takes at least 2^28 - 400 digits
  (`Literal.ShortIsAsWritten`), and it happens: 0.0...01e2684354560 with 2^28 zeros is read as 0.1
  (`Literal.CutShows`).
- A reload of a file of another family changes what lookups answer from before it has loaded anything,
  because the type is stored first; if it then fails, an old version can come back into sight
  (`ReaderReload.FailedReloadInGeneral`, `ReaderReload.ReloadWindow`,
  `ReaderReload.MixedFamiliesGoBack`). Every interleaving with lookups answers from current versions
  exactly when from the first published load on all stored types are of its family
  (`ReaderReload.SettledExactly`).
- The bound of three times the final capacity on the bytes that growing moves holds for all runs
  exactly when the first capacity is at least 2 (`Memory.AmortizedFromTwo`).

## Model

| member | source | states |
|---|---|---|
| Memory.MallocMemoryHandler.Allocate | src/axoncache/memory/MallocMemoryHandler.cpp:20-33 | a larger or equal size gives a fresh zeroed buffer of exactly that size, a smaller one changes nothing |
| Memory.MallocMemoryHandler.ResizeToFit | src/axoncache/memory/MallocMemoryHandler.cpp:35-45 | the bytes in use survive, the size asked for fits, and a reallocation adds half the old capacity |
| Memory.MallocMemoryHandler.Grow | src/axoncache/memory/MemoryHandler.cpp:18-24 | old bytes are preserved in front of the returned offset; the buffer is fresh exactly when it was reallocated |
| Memory.GrowthIsAmortized | src/axoncache/memory/MallocMemoryHandler.cpp:35-45 | over any run of growths from a capacity of at least 2, size stays within capacity and all reallocations together move at most three times the final capacity |
| Memory.SlackIsAtMostHalf | src/axoncache/memory/MallocMemoryHandler.cpp:35-45 | after any run of growths the capacity is at most 1.5 times the size in use |
| Memory.AmortizedFromTwo | src/axoncache/memory/MallocMemoryHandler.cpp:20-45 | the bound on moved bytes holds for all runs from a fresh allocation if and only if it has at least two bytes |
| Records.PackedSlotUnpacks | include/axoncache/cache/probe/LinearProbe.h:33-53 | a packed slot gives back the hash prefix and the offset through the two masks, which share no bit, and is zero in the offset part only for offset 0 |
| Records.DecodeOfEncode | include/axoncache/cache/probe/LinearProbe.h:15-22 | every field of the packed record header reads back what was encoded: key size, flags, type, size, key bytes and payload |
| Records.AddEntry | src/axoncache/cache/value/LinearProbeValue.cpp:21-39 | appending a record and writing its slot represents the table with exactly that entry added; all other slots keep their records |
| ProbeTable.SearchIsCorrect | include/axoncache/cache/probe/LinearProbe.h:107-141 | in a well-formed table every cyclic search ends, on an occupied slot if and only if the key is stored |
| ProbeTable.SearchIsBounded | include/axoncache/cache/probe/LinearProbe.h:107-141 | finding a stored key inspects at most maxCollisions + 1 slots |
| ProbeTable.SearchReadsMap | include/axoncache/cache/probe/LinearProbe.h:107-141 | the slot a search stops at holds what the table's map has for the key |
| ProbeTable.InsertKeepsInvariant | src/axoncache/cache/LinearProbeDedupCache.cpp:45-91 | inserting at the first free slot keeps every chain from home occupied, keys distinct, the count right and the collision bound valid |
| ProbeTable.MapOfInsert | src/axoncache/cache/LinearProbeDedupCache.cpp:45-91 | such an insertion adds exactly one pair to the map |
| Probe.LinearProbe.LoadSlot | include/axoncache/cache/probe/LinearProbe.h:113-118 | a slot reads as empty exactly when the table has no entry there: the bias of 8 keeps real offsets nonzero |
| Probe.LinearProbe.Matches | include/axoncache/cache/probe/LinearProbe.h:120-131 | the prefix filter followed by the comparison of size and bytes accepts exactly the slot's own key |
| Probe.LinearProbe.FindKeySlotOffset | include/axoncache/cache/probe/LinearProbe.h:107-141 | -1 exactly for absent keys, and otherwise 8 times the slot (hash + inspected - 1) modulo the number of slots, with its eight bytes; all slots (hash + k) modulo the number of slots before that hold other keys |
| Probe.LinearProbe.FindFreeKeySlotOffset | include/axoncache/cache/probe/LinearProbe.h:144-177 | -2 exactly for stored keys, and otherwise 8 times the slot (hash + collisions) modulo the number of slots, which is the first empty one from the hash on; it terminates |
| Trailer.FrequentValuesOutput | src/axoncache/cache/LinearProbeDedupCache.cpp:93-132 | the size-mismatch exception is thrown exactly when the handler does not hold the values' bytes, so never for the handler that the setter fills |
| Trailer.SetFrequentValue | src/axoncache/cache/LinearProbeDedupCache.cpp:134-173 | walking the raw bytes computes the parse of the image, with size mismatch and reads outside the image told apart |
| Trailer.ParseOfOutput | src/axoncache/cache/LinearProbeDedupCache.cpp:93-173 | what parsing makes of every table the setter admits, behind any records: the table, nothing for 65536 values, or a size mismatch for a value of 2^32 bytes or more |
| Trailer.TrailerRoundTrip | src/axoncache/cache/LinearProbeDedupCache.cpp:93-173 | the table reads back exactly as written if and only if it has at most 65535 values, each shorter than 2^32 |
| Trailer.OutputIsTable | src/axoncache/cache/LinearProbeDedupCache.cpp:93-132 | what is written behind any records, by position and place value: count, lengths, values and total size, or eight zero bytes for 0 and 65536 values |
| Trailer.ParseExactly | src/axoncache/cache/LinearProbeDedupCache.cpp:134-173 | any image, whoever wrote it, loads a table if and only if it ends in exactly that layout |
| Trailer.ParseOfLengths | src/axoncache/cache/LinearProbeDedupCache.cpp:146-172 | for any image and the lengths found in it: a read outside, a size mismatch or the values, by comparing their sum with the size |
| CacheModel.ReadOfEncode | src/axoncache/cache/value/LinearProbeValue.cpp:97-112 | reading an encoded record with its table gives type and value back, whether stored inline or as a one-byte or two-byte index |
| ImageFormat.RecordBytes | src/axoncache/cache/value/LinearProbeValue.cpp:119-189 | the bytes of a record by position: key size, flags 0, 16 or 1 with the type, three bytes of value size, key, and the value or the index of its first occurrence in one or two bytes |
| ImageFormat.ReadByPosition | src/axoncache/cache/value/LinearProbeValue.cpp:97-112 | what reading finds in any bytes: the fifth flag bit, then the first, then the bytes themselves |
| ImageFormat.PutWrites | src/axoncache/cache/LinearProbeDedupCache.cpp:45-91 | each of the six outcomes of an insertion with its condition in numbers, the slot (hash + d) modulo the number of slots it fills, the bits it writes there, the record behind the old heap, and the counters; all other bytes stay |
| CacheLife.PutOutcome | src/axoncache/cache/LinearProbeDedupCache.cpp:45-91 | which of the six outcomes an insertion has, each with its exact condition and in the order of the checks |
| CacheLife.PutCorrect | src/axoncache/cache/LinearProbeDedupCache.cpp:45-91 | every insertion with a sound key-space pointer keeps the invariant; it adds exactly the new pair when it succeeds and changes no answer otherwise; it leaves the pointer dangling exactly when the record is out of reach and the heap has moved |
| CacheLife.InstallCorrect | include/axoncache/cache/LinearProbeDedupCache.h:51-86 | installing a table changes no answer, and which of the four outcomes it has, in the order of the checks |
| CacheLife.LookupReadsContents | include/axoncache/cache/LinearProbeDedupCache.h:102-134 | what the search for any key reads, present or absent, is what the abstract contents say |
| CacheLife.RunRefines | src/axoncache/cache/LinearProbeDedupCache.cpp:45-91 | after every defined sequence of insertions and installs on a fresh cache it holds exactly the abstract first-write-wins map; entry count, bytes used and capacity are those of the abstract run |
| CacheLife.TableComesBack | src/axoncache/cache/LinearProbeDedupCache.cpp:10-43 | loading brings the table back if and only if it is empty, or the type writes a trailer and count and lengths fit their fields |
| CacheLife.LoadedTable | src/axoncache/cache/LinearProbeDedupCache.cpp:134-173 | loading succeeds if and only if the type writes no trailer, the table has 65536 entries or every length fits 32 bits, and gives the table or an empty one |
| CacheLife.ReloadKeepsContents | include/axoncache/cache/LinearProbeDedupCache.h:22-29 | the invariant holds for the loaded cache if and only if the table survives or every record is inline, and then the map is the same; the loaded cache is always written again byte for byte |
| CacheLife.LostTable | src/axoncache/cache/LinearProbeDedupCache.cpp:10-43 | for every type and every table that is lost, a de-duplicated record reads after loading the bytes from its index on, or reaches beyond the image; its reading is kept if and only if it is inline or these bytes are the value |
| CacheLife.AnswersAreContents | src/axoncache/cache/value/LinearProbeValue.cpp:97-112 | while the invariant holds, what every key's search and the decoding of its record give is the answer of the abstract map |
| CacheLife.AnswersSurvive | src/axoncache/cache/LinearProbeDedupCache.cpp:10-43 | whenever loading succeeds, it keeps the answer to every key if and only if the table survives or every record reads the same without it |
| CacheLife.WholeLife | src/axoncache/cache/LinearProbeDedupCache.cpp:10-91 | for every run of operations from a fresh cache and every table that survives, writing and loading gives a cache that holds the abstract first-write-wins map |
| CacheLife.LinearProbeLosesTable | src/axoncache/cache/LinearProbeDedupCache.cpp:20-25 | a concrete cache of type linear probe whose record of a frequent value can no longer be read after loading |
| DefinedRuns.DefinedExactly | src/axoncache/cache/value/LinearProbeValue.cpp:21-39 | a run reads no freed memory if and only if no insertion follows one whose record is out of reach while size and record reach the capacity; the hash does not matter |
| DefinedRuns.DanglingIsReachable | src/axoncache/cache/value/LinearProbeValue.cpp:21-39 | three insertions, for every hash, of which the last reads through the dangling pointer |
| Deduplication.AgreeExactly | src/axoncache/cache/LinearProbeDedupCache.cpp:61-82 | from equal contents a run and the same run without its installs agree after every prefix if and only if both admit or both refuse each insertion |
| Deduplication.DedupIsTransparent | src/axoncache/cache/LinearProbeDedupCache.cpp:61-82 | the same for two caches, one with tables installed at any points, also tables with repeats, and one with none: after every operation they hold the same types and bytes if and only if no insertion is treated differently |
| Deduplication.TableAdmitsMore | src/axoncache/cache/LinearProbeDedupCache.cpp:61-82 | a value of 2^24 bytes is stored with the table and refused without it |
| Deduplication.RoomIsDefined | src/axoncache/cache/value/LinearProbeValue.cpp:21-39 | runs that never meet a value too long or a record out of reach are defined |
| Deduplication.TransparentWithRoom | src/axoncache/cache/LinearProbeDedupCache.cpp:61-82 | if neither run meets one, both are defined and hold the same |
| DedupCache.LinearProbeDedupCache.constructor | include/axoncache/cache/base/HashedCacheBase.h:38-54 | a new object has 8 zero bytes per slot, no entries and no table |
| DedupCache.CreateCache | include/axoncache/cache/base/HashedCacheBase.h:38-54 | refused exactly for offset bits outside 16 to 38 or a load factor above 0.8, in that order; unusable exactly without slots; otherwise the entry limit leaves an empty slot |
| DedupCache.LinearProbeDedupCache.GetFromSlot | src/axoncache/cache/value/LinearProbeValue.cpp:97-112 | the bytes behind a slot decode to what the entry resolves to |
| DedupCache.LinearProbeDedupCache.GetWithType | include/axoncache/cache/LinearProbeDedupCache.h:125-134 | every key's lookup is the abstract map's answer; the hash is reported only for keys that are present |
| DedupCache.LinearProbeDedupCache.GetInternal | include/axoncache/cache/LinearProbeDedupCache.h:102-123 | exists exactly for stored keys, bytes only for the matching type |
| DedupCache.LinearProbeDedupCache.ContainsKey | include/axoncache/cache/base/HashedCacheBase.h:240-246 | true exactly for keys of the abstract map |
| DedupCache.LinearProbeDedupCache.AddToEnd | src/axoncache/cache/value/LinearProbeValue.cpp:119-154 | the record goes behind all bytes in use, and the heap may move |
| DedupCache.LinearProbeDedupCache.Add | src/axoncache/cache/value/LinearProbeValue.cpp:196-214 | too short exactly when the offset does not fit the offset bits; then the record stays behind and no slot changes |
| DedupCache.LinearProbeDedupCache.PutInternal | src/axoncache/cache/LinearProbeDedupCache.cpp:45-91 | on real objects an insertion takes the state machine's step, keeps the invariant, and has the outcome, slot, bits, record bytes and counters of ImageFormat.PutIs |
| DedupCache.LinearProbeDedupCache.SetDuplicatedValues | include/axoncache/cache/LinearProbeDedupCache.h:51-86 | filling the tables in two loops takes the state machine's install step, with the first index for repeated values; too many, already loaded and already set are told apart |
| DedupCache.LinearProbeDedupCache.OutputBytes | src/axoncache/cache/LinearProbeDedupCache.cpp:10-43 | no exception is possible; the heap comes first; nothing follows for type linear probe or a loaded cache, eight zero bytes without a table or with 0 or 65536 values, and otherwise the table by position and place value |
| DedupCache.LoadCache | include/axoncache/cache/LinearProbeDedupCache.h:22-29 | refused exactly for offset bits outside 16 to 38 or, unless the type is linear probe, a trailer that does not parse; unusable exactly without slots or with an image shorter than them; otherwise the object has the image, the counters of the header, room for no entry, and the table that the image parses to |
| DedupCache.Replay | src/axoncache/cache/LinearProbeDedupCache.cpp:45-91 | the object reaches the state of the machine's run after any defined sequence of operations |
| DedupCache.WriteThenLoad | src/axoncache/cache/LinearProbeDedupCache.cpp:10-91 | a whole run on objects that strands no pointer, written and loaded, answers from the abstract first-write-wins map |
| BigInt.LimitInBits | include/axoncache/common/fast_float.h:2409-2416 | the buffer holds 3968 bits |
| BigInt.StackVec.TryPush | include/axoncache/common/fast_float.h:2420-2536 | succeeds exactly while a limb is free, and appends |
| BigInt.StackVec.Normalize | include/axoncache/common/fast_float.h:2420-2536 | leading zero limbs go, the value stays |
| BigInt.StackVec.SmallMul | include/axoncache/common/fast_float.h:2659-2671 | exact product by a limb, true if and only if it fits 62 limbs; a nonzero factor keeps the normal form |
| BigInt.StackVec.SmallAddFrom | include/axoncache/common/fast_float.h:2633-2650 | exact sum with a limb shifted to any position, true if and only if it fits |
| BigInt.StackVec.LargeAddFrom | include/axoncache/common/fast_float.h:2673-2703 | exact sum with another integer shifted to any position, carries included; true if and only if sum and operand fit |
| BigInt.StackVec.LongMul | include/axoncache/common/fast_float.h:2712-2739 | exact product of two integers in normal form, true if and only if it fits |
| BigInt.StackVec.LargeMul | include/axoncache/common/fast_float.h:2741-2751 | the same through the single-limb shortcut |
| BigIntOps.ShlBits | include/axoncache/common/fast_float.h:2861-2886 | exact multiplication by 2^n for n below 64, true if and only if it fits |
| BigIntOps.ShlLimbs | include/axoncache/common/fast_float.h:2888-2907 | exact multiplication by 2^(64 n), true if and only if n and the limbs in use together are at most 62 |
| BigIntOps.ShiftLeft | include/axoncache/common/fast_float.h:2909-2920 | exact multiplication by 2^n for any n, normal form kept; true if and only if a nonzero product fits, or for zero if and only if n has at most 62 whole limbs |
| BigIntOps.MulPow5 | include/axoncache/common/fast_float.h:2956-2986 | exact multiplication by 5^exp through the large and small tables, true if and only if it fits |
| BigIntOps.MulPow10 | include/axoncache/common/fast_float.h:2988-2992 | exact multiplication by 10^exp; true if and only if a nonzero product fits, or for zero if and only if exp has at most 62 whole limbs |
| BigIntOps.LargePower | include/axoncache/common/fast_float.h:2753-2773 | the five limbs of the large table are 5^135 |
| BigIntOps.Hi64 | include/axoncache/common/fast_float.h:2808-2834 | the top 64 bits of the value and whether any bit below them is set |
| BigIntOps.Compare | include/axoncache/common/fast_float.h:2836-2859 | for integers in normal form, the sign of the difference of the values |
| Rounding.NearestNeighbour | include/axoncache/common/fast_float.h:3086-3141 | between neighbouring floats the midpoint decides which of all floats is nearest, and at the midpoint evenness |
| Rounding.FinishNormal | include/axoncache/common/fast_float.h:3085-3114 | a carry out of the mantissa is the next float, and floats from infinity on become infinity |
| Rounding.FinishDenormal | include/axoncache/common/fast_float.h:3085-3114 | a denormal that rounds up to the hidden bit is the smallest normal float |
| DigitComparison.TopRoundsToNearest | include/axoncache/common/fast_float.h:3086-3141 | rounding from the top 64 bits and the flag for the rest gives the float nearest to the whole number, ties to even |
| DigitComparison.PositiveDigitComp | include/axoncache/common/fast_float.h:3314-3331 | digits times 10^e are rounded to the nearest float, ties to even, carry and overflow to infinity included |
| DigitComparison.HalfwayIsMidpoint | include/axoncache/common/fast_float.h:3041-3083 | the extended halfway number of a float is the midpoint to its successor |
| DigitComparison.HalfwayComparison | include/axoncache/common/fast_float.h:3338-3367 | after scaling by powers of 5 and 2 the integers differ with the sign of decimal number minus midpoint |
| DigitComparison.HalfwayDigits | include/axoncache/common/fast_float.h:3352-3367 | the scaled midpoint is built exactly whenever it fits |
| DigitComparison.RoundedByOrder | include/axoncache/common/fast_float.h:3368-3381 | rounding by the comparison gives the rounded-down float or its successor, as order and evenness say |
| DigitComparison.NegativeDigitComp | include/axoncache/common/fast_float.h:3333-3384 | digits over 10^n are rounded to the nearest float from any approximation that lies just below them |
| Digits.MadeOfDigitsIsCorrect | include/axoncache/common/fast_float.h:1113-1117 | the masked sum-and-difference test accepts a word if and only if all its bytes are digits, for words of any number of bytes |
| Digits.ParseEight | include/axoncache/common/fast_float.h:1089-1100 | two multiplications on the word give the number that the eight digits spell |
| Digits.LoopParseIfEightDigits | include/axoncache/common/fast_float.h:1191-1198 | eight at a time gives what one at a time gives modulo 2^64, and stops only where fewer than eight digits follow |
| Digits.AccumulatedConcat | include/axoncache/common/fast_float.h:1191-1198 | taking digits in pieces into a wrapping word is taking them at once |
| IntegerText.BaseLimits | include/axoncache/common/fast_float.h:856-873 | for every base the tables give the length of the longest word and the least value of that length |
| IntegerText.DigitCharacters | include/axoncache/common/fast_float.h:837-853 | exactly the ten digits and the letters of both cases are digits, in the order 0 to 9 and a to z |
| IntegerText.CaseDoesNotMatter | include/axoncache/common/fast_float.h:1416-1430 | texts that differ in the case of letters are answered alike |
| IntegerText.ReadsText | include/axoncache/common/fast_float.h:1388-1487 | for minus, digits and rest as concatenation: the value if it is in the range of the type, in numbers, where reading stops, and each refusal |
| IntegerText.ReadsBack | include/axoncache/common/fast_float.h:1388-1487 | every number in the range of every type is read back from its text in every base, in lower and in upper case |
| IntegerText.ParseInt | include/axoncache/common/fast_float.h:1388-1487 | every base, type and length: the written value if it fits and out of range otherwise, except that a misread literal gives the wrapped word |
| IntegerText.TestsDecide | include/axoncache/common/fast_float.h:1449-1467 | the digit-count, threshold and limit tests refuse exactly the values that do not fit, apart from those that wrap unnoticed |
| IntegerText.NegatedIsNegative | include/axoncache/common/fast_float.h:1469-1482 | the wrap-around detour through the type computes the negative number, the minimum included |
| IntegerText.MisreadExactly | include/axoncache/common/fast_float.h:1449-1467 | some literal is misread for a type and base if and only if a second word begins before the longest literals end and their least value fits the type |
| IntegerText.DecimalIsExact | include/axoncache/common/fast_float.h:1449-1467 | in base 10 some literal is misread for uint64 and for no other type |
| IntegerText.SmallTypesAreExact | include/axoncache/common/fast_float.h:1449-1467 | types of at most 32 bits are read exactly in every base |
| IntegerText.MisreadWitnesses | include/axoncache/common/fast_float.h:1456-1459 | 30000000000000000000 is misread as uint64 in base 10, and some literal as int64 in base 5 |
| NumberText.ParseNumber | include/axoncache/common/fast_float.h:1218-1386 | accepts exactly the texts that begin with a literal of the grammar, stated as concatenation of characters under the format flags; end, sign, spans, mantissa and exponent are those of the pieces |
| NumberText.SpelledExactly | include/axoncache/common/fast_float.h:1218-1338 | the positions the scanner finds are the pieces of the concatenation, in both directions: sign, digits, point, exponent letter or sign, exponent and rest |
| NumberText.ScanReadsPieces | include/axoncache/common/fast_float.h:1286-1385 | all digits below 10^19 or the first nineteen, with the exponent that goes with the written one or with the part of it that is read |
| NumberText.SkipLeadingZeros | include/axoncache/common/fast_float.h:1344-1353 | skipping zeros and points up to the end of the text counts more than nineteen digits exactly when more than nineteen are significant |
| NumberText.Truncate | include/axoncache/common/fast_float.h:1355-1381 | the second pass keeps exactly nineteen significant digits, wherever the point falls, with the exponent that goes with them |
| NumberText.ClampedIsExact | include/axoncache/common/fast_float.h:1321-1331 | the saturating exponent is the written one if and only if its digits before the last stay below 2^28 |
| NumberText.ClampedIsPrefix | include/axoncache/common/fast_float.h:1321-1331 | the exponent that is read is the shortest prefix of the digits that reaches 2^28, or all of them |
| NumberText.ScanBracketsLiteral | include/axoncache/common/fast_float.h:1218-1386 | mantissa times 10^exponent is the literal, or brackets it within one unit when digits were cut, if and only if the exponent is below saturation or the mantissa is zero |
| NumberText.SaturationHappens | include/axoncache/common/fast_float.h:1321-1331 | the literal 1e10000000000 is accepted and not bracketed by its scan |
| Mantissa.SkipZeros | include/axoncache/common/fast_float.h:3152-3169 | skips exactly the leading zeros, eight bytes at a time |
| Mantissa.IsTruncated | include/axoncache/common/fast_float.h:3173-3197 | true if and only if a nonzero digit follows |
| Mantissa.ReadChunk | include/axoncache/common/fast_float.h:3200-3215 | up to nineteen digits are read into one word without wrapping |
| Mantissa.AddNative | include/axoncache/common/fast_float.h:3218-3222 | the product and the sum whose results are ignored are exact and do not fail |
| Mantissa.ParseMantissa | include/axoncache/common/fast_float.h:3224-3312 | all significant digits, or the first max of them, with a final 1 exactly when a dropped digit is not 0; for max up to 769 no operation runs out of limbs |
| SlowPath.NoPointInside | include/axoncache/common/fast_float.h:701-706 | no float and no midpoint lies strictly between two neighbouring numbers of as many digits as are kept |
| SlowPath.StandardDigits | include/axoncache/common/fast_float.h:701-706 | 769 digits are enough for a double and 114 for a float |
| SlowPath.StandInRounds | include/axoncache/common/fast_float.h:3224-3230 | the cut digits with their final 1 round as the whole literal does |
| SlowPath.ScientificExponent | include/axoncache/common/fast_float.h:3017-3039 | the exponent of the leading digit |
| SlowPath.MantissaLength | include/axoncache/common/fast_float.h:3399-3411 | mantissa length and dropped digits add up to the significant digits, so the exponent of the big mantissa is right |
| SlowPath.EverythingFits | include/axoncache/common/fast_float.h:2409-2416 | for every literal in the exponent range of the table, digits and midpoint fit the limbs when they are compared |
| SlowPath.DigitComp | include/axoncache/common/fast_float.h:3399-3417 | any number of digits times a power of ten is rounded to the nearest float, ties to even; where the number is not whole, from any approximation just below it |
| SlowPath.OutsideRange | include/axoncache/common/fast_float.h:2287-2298 | a zero mantissa or an exponent below the table's range means that zero is the nearest float, and an exponent above it that infinity is |
| Literal.ZeroExactly | include/axoncache/common/fast_float.h:2287-2298 | zero is the nearest float if and only if the number is at most half the smallest denormal |
| Literal.InfinityExactly | include/axoncache/common/fast_float.h:2287-2298 | infinity is the nearest float if and only if the number reaches the midpoint above the largest float |
| Literal.TwoScales | include/axoncache/common/fast_float.h:1321-1331 | digits at two different powers of ten have the same nearest float if and only if both vanish or both overflow |
| Literal.CutRounds | include/axoncache/common/fast_float.h:1321-1331 | the float nearest to the number as read is nearest to the number as written if and only if the exponent is not cut or both numbers lie beyond the same end of the format |
| Literal.ShortIsAsWritten | include/axoncache/common/fast_float.h:1321-1331 | literals of less than 2^28 - 400 digits meet that condition whatever their exponent |
| Literal.CutShows | include/axoncache/common/fast_float.h:1321-1331 | 0.0...01e2684354560 with 2^28 zeros is read as 0.1, and no float is nearest to both |
| Literal.RoundsToNearestFloat | include/axoncache/common/fast_float.h:708-735 | rounding in units is rounding a real number to the nearest IEEE 754 word, with the fraction bits, bias and infinity of double and float in numbers |
| Literal.RoundLiteral | include/axoncache/common/fast_float.h:3627-3688 | from the text: for a text that begins with given pieces whose exponent is not cut, or with less than 2^28 - 400 digits, the answer is the word of the float nearest to the number as written, over the reals and all words up to infinity, ties to even; in general it is nearest at the scale that is read, and at the written one if and only if both numbers vanish or overflow together |
| XxhStream.OneShot | include/axoncache/common/xxhash.h:2496-2528 | the loop over stripes with its limit computes the four lanes of LaneHash and finishes with the rest |
| XxhStream.HashIsLanes | include/axoncache/common/xxhash.h:2496-2528 | start values, the words each lane takes by position, the threshold and the modulus, for both hashes in numbers |
| XxhStream.StreamState.constructor | include/axoncache/common/xxhash.h:2575-2586 | a reset state has taken nothing |
| XxhStream.StreamState.Update | include/axoncache/common/xxhash.h:2588-2637 | lanes are the fold over all full stripes so far and the buffer is exactly the remainder, for every cut |
| XxhStream.StreamState.Digest | include/axoncache/common/xxhash.h:2640-2658 | the digest is the one-shot hash of everything fed so far, with the start values, words, lanes and remainder of LaneHash |
| XxhStream.CountersAdvance | include/axoncache/common/xxhash.h:2185-2186 | the 32-bit length wraps, and the flag tells inputs of at least 16 bytes apart whatever the wrap |
| XxhStream.StreamingIsOneShot | include/axoncache/common/xxhash.h:2083-2245 | for XXH32 and XXH64 and every list of chunks, streaming equals the one-shot hash of the concatenation |
| Xxh3Stream.Accumulate | include/axoncache/common/xxhash.h:4358-4373 | the stripes of one block advance the schedule one by one, with the secret inside its bounds |
| Xxh3Stream.ConsumeStripes | include/axoncache/common/xxhash.h:4754-4776 | any number of stripes up to a block advances the schedule, scrambling exactly where a block ends |
| Xxh3Stream.HashLong | include/axoncache/common/xxhash.h:4375-4406 | the block loop takes exactly these events: stripe k with the secret at 8 (k mod B), a scramble behind it when B divides k + 1, and the last 64 bytes with the secret 71 before its end, where B is an eighth of the secret size less 64 |
| Xxh3Stream.LongIsFold | include/axoncache/common/xxhash.h:4358-4406 | the schedule of the program is that list of events, for every input longer than 240 bytes and every secret |
| Xxh3Stream.TakeBlocks | include/axoncache/common/xxhash.h:4841-4867 | the large branch of an update ends at the last stripe that leaves a byte |
| Xxh3Stream.Xxh3State.FlushBuffer | include/axoncache/common/xxhash.h:4827-4837 | completing and consuming the buffer takes the four stripes across the seam between two inputs |
| Xxh3Stream.Xxh3State.Update | include/axoncache/common/xxhash.h:4786-4899 | for every cut: stripes taken in schedule, the rest buffered, and the bytes before it kept when they may be needed |
| Xxh3Stream.Xxh3State.DigestLong | include/axoncache/common/xxhash.h:4910-4942 | the last 64 bytes are found even when they straddle the buffer, and the state is not changed |
| Xxh3Stream.Xxh3State.Digest | include/axoncache/common/xxhash.h:4944-4960 | the digest is the one-shot hash of everything fed so far, by the same events |
| Xxh3Stream.StreamingIsOneShot3 | include/axoncache/common/xxhash.h:4786-4960 | for every list of chunks streaming equals the one-shot hash of the concatenation, and both are the fold over the events |
| ReaderReload.LookupsAreCurrent | src/axoncache/capi/CacheReaderCApi.cpp:81-260 | if from the first published load on all stored types are of its family, every lookup answers from exactly one fully loaded version that was current at some moment of the call, or from none if none was |
| ReaderReload.LaterLookupsAreNotOlder | src/axoncache/capi/CacheReaderCApi.cpp:162-260 | in such a run a lookup that begins after another has answered, in any thread, never answers from an older version |
| ReaderReload.ThreadsDoNotGoBack | src/axoncache/capi/CacheReaderCApi.cpp:162-260 | in such a run successive lookups of a thread never go back |
| ReaderReload.FailedReloadIsInvisible | src/axoncache/capi/CacheReaderCApi.cpp:102-153 | in such a run a reload that fails changes no answer, at no moment of it; before the first version is published its type may be any |
| ReaderReload.FailedReloadInGeneral | src/axoncache/capi/CacheReaderCApi.cpp:116-153 | a failed reload changes no answer if and only if the file is of the family in use or neither pointer was ever set |
| ReaderReload.ReloadWindow | src/axoncache/capi/CacheReaderCApi.cpp:116-147 | a successful reload ends with the new version in sight; until then lookups stay on the current version if and only if the file is of the family in use |
| ReaderReload.WhoSeesIt | src/axoncache/capi/CacheReaderCApi.cpp:120-147 | after a reload, lookups under a type see the new version if and only if the type shares the pointer of the file: each of linear probe and bucket chain alone, the two de-duplicated ones together |
| ReaderReload.LookupReadsLate | src/axoncache/capi/CacheReaderCApi.cpp:162-205 | a lookup that begins before a reload and ends after it answers from the new version |
| ReaderReload.SettledExactly | src/axoncache/capi/CacheReaderCApi.cpp:81-260 | for a schedule of the reloader, every interleaving with lookups answers only from current versions if and only if from the first published load on all stored types are of its family |
| ReaderReload.OneFamilyIsSettled | src/axoncache/capi/CacheReaderCApi.cpp:116-147 | files of one family alone are such a schedule |
| ReaderReload.MixedFamiliesGoBack | src/axoncache/capi/CacheReaderCApi.cpp:116-153 | a run with two families in which a thread sees version 2 and then version 1 |
| StringList.Encode | src/axoncache/transformer/StringListToString.cpp:15-52 | refused if and only if there are more than 65535 elements or an element is longer than 65535 bytes; otherwise count, lengths, bytes and a zero behind each element are at their positions |
| StringList.Decode | src/axoncache/transformer/StringListToString.cpp:54-69 | the loop over the data pointer reads what the bytes announce |
| StringList.ReadingByPosition | src/axoncache/transformer/StringListToString.cpp:54-69 | any data with lengths and bytes at these positions is read as that list, whatever stands behind an element |
| StringList.RoundTrip | src/axoncache/transformer/StringListToString.cpp:15-69 | decoding an encoded list gives it back, embedded NULs included, and reads exactly the encoded length |
| StringList.EncodeThenDecode | src/axoncache/transformer/StringListToString.cpp:15-69 | both transforms in a row are the identity on every list that can be encoded |

## Left out

- Files, mmap, HTTP, command lines and the C, Go, Java and Python bindings: a saved cache is the byte sequence after the header, and the header's counters are parameters of loading.
- The hash of keys: an arbitrary function to 64-bit words.
- The bucket-chain cache: its records and chains are not modelled; in the reload model it is one of the families.
- The loader's map from values to indices: lookups never use it and a loaded cache refuses every insertion; its index is eight bits wide, so it is not claimed to invert the table.
- Typed puts and getters, trimming of terminators and float spans: thin wrappers around the modelled operations.
- DedupCache.CreateCache: the product of slots and load factor is over the reals and the factor is not negative, so it does not model the rounding of the double product or a negative product.
- CacheLife.RunRefines: it is about defined runs; what an insertion through a dangling pointer reads is not modelled. DefinedRuns.DefinedExactly says which runs are defined.
- CacheLife.WholeLife: the count of bytes used is unbounded; sizes beyond 2^64 are not modelled.
- Literal.RoundLiteral: without the fast paths of the decimal parser (exact small powers, and the approximate product with the table of 128-bit powers); it takes as given, for literals that are not whole, that the approximation rounded down is the float just below the digits at the scale that is read. Where an exponent is cut, the rounding as written is promised under the condition of Literal.CutRounds only, because it fails elsewhere.
- Memory.MallocMemoryHandler.ResizeToFit: `realloc` may extend a block in place, and the model always moves it; DefinedRuns.DefinedExactly and DefinedRuns.DanglingIsReachable rest on that.
- Infinity and NaN spellings, leading plus signs, white space, wide characters and the build with 32-bit limbs.
- NumberText.ParseNumber: it asks for a decimal point that is not a digit and for a text that is not empty, as the caller does.
- Mantissa.ParseMantissa: positions in the text stand for pointers, and a missing fraction is an empty one.
- StringList.Decode: it asks that the lengths in the data stay inside it, because the decoder does not check them.
- The mixing rounds, the short-input forms and the 128-bit digest of the hash; SIMD variants; secrets derived from a seed.
- XxhStream.StreamState.Update: inputs together stay below 2^64 bytes, as every one-shot input does.
- ReaderReload.LookupsAreCurrent: reading the type is one atomic step although the field is not atomic; the methods are modelled as interleaved steps on a value, and memory reclamation by shared pointers as versions that never change.
