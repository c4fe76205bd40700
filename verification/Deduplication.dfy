/** De-duplication is transparent: exactly when a cache with tables of frequent values and one without
    hold the same. */
module Deduplication {
  import opened Powers
  import opened Bytes
  import opened Records
  import opened CacheModel
  import opened CacheLife
  import opened DefinedRuns

  function PutsOnly(ops: seq<Op>): seq<Op>
    decreases |ops|
  {
    if |ops| == 0 then []
    else if ops[0].PutOp? then [ops[0]] + PutsOnly(ops[1..])
    else PutsOnly(ops[1..])
  }

  /** The insertion of a new key succeeds. */
  predicate Admits(c: Config, a: Abstract, op: Op) {
    op.PutOp? && Writes(c, a, op.key, op.value) && Addressable(c, a)
  }

  /** Both runs admit insertion k, or both refuse it. */
  predicate AdmitAlikeAt(c: Config, a: Abstract, b: Abstract, ops: seq<Op>, k: nat)
    requires k < |ops|
  {
    Admits(c, AbstractRun(c, a, ops[..k]), ops[k]) <==> Admits(c, AbstractRun(c, b, PutsOnly(ops[..k])), ops[k])
  }

  ghost predicate AdmitAlike(c: Config, a: Abstract, b: Abstract, ops: seq<Op>) {
    forall k :: 0 <= k < |ops| && ops[k].PutOp? ==> AdmitAlikeAt(c, a, b, ops, k)
  }

  /** The run and the run without its installs hold the same after k operations. */
  predicate AgreeAfter(c: Config, a: Abstract, b: Abstract, ops: seq<Op>, k: nat)
    requires k <= |ops|
  {
    AbstractRun(c, a, ops[..k]).contents == AbstractRun(c, b, PutsOnly(ops[..k])).contents
  }

  // ---------- runs grow at the end

  lemma {:induction false} AbstractRunPush(c: Config, a: Abstract, ops: seq<Op>, op: Op)
    ensures AbstractRun(c, a, ops + [op]) == AbstractStep(c, AbstractRun(c, a, ops), op)
    decreases |ops|
  {
    hide AbstractStep;
    if |ops| == 0 {
      assert ops + [op] == [op] && [op][1..] == [];
    } else {
      assert (ops + [op])[1..] == ops[1..] + [op];
      AbstractRunPush(c, AbstractStep(c, a, ops[0]), ops[1..], op);
    }
  }

  lemma {:induction false} PutsOnlyPush(ops: seq<Op>, op: Op)
    ensures PutsOnly(ops + [op]) == PutsOnly(ops) + if op.PutOp? then [op] else []
    decreases |ops|
  {
    if |ops| == 0 {
      assert ops + [op] == [op] && [op][1..] == [];
    } else {
      assert (ops + [op])[1..] == ops[1..] + [op];
      PutsOnlyPush(ops[1..], op);
    }
  }

  /** One more operation keeps equal contents equal exactly when both admit or both refuse it. */
  lemma AgreeStep(c: Config, a: Abstract, b: Abstract, ops: seq<Op>, k: nat)
    requires k < |ops| && AgreeAfter(c, a, b, ops, k)
    ensures AgreeAfter(c, a, b, ops, k + 1) <==> (ops[k].PutOp? ==> AdmitAlikeAt(c, a, b, ops, k))
  {
    hide AbstractRun, Addressable, Storable, RecordSize;
    var op := ops[k];
    assert ops[..k] + [op] == ops[..k + 1];
    AbstractRunPush(c, a, ops[..k], op);
    PutsOnlyPush(ops[..k], op);
    if op.PutOp? {
      AbstractRunPush(c, b, PutsOnly(ops[..k]), op);
    } else {
      assert PutsOnly(ops[..k]) + [] == PutsOnly(ops[..k]);
    }
  }

  lemma {:induction false} AgreeUpTo(c: Config, a: Abstract, b: Abstract, ops: seq<Op>, k: nat)
    requires a.contents == b.contents && AdmitAlike(c, a, b, ops) && k <= |ops|
    ensures AgreeAfter(c, a, b, ops, k)
  {
    hide AdmitAlikeAt;
    if k == 0 {
      assert ops[..0] == [];
    } else {
      AgreeUpTo(c, a, b, ops, k - 1);
      AgreeStep(c, a, b, ops, k - 1);
    }
  }

  /** From equal contents the two runs agree after every prefix exactly when at every insertion both
      admit or both refuse. */
  lemma AgreeExactly(c: Config, a: Abstract, b: Abstract, ops: seq<Op>)
    requires a.contents == b.contents
    ensures (forall k :: 0 <= k <= |ops| ==> AgreeAfter(c, a, b, ops, k)) <==> AdmitAlike(c, a, b, ops)
  {
    hide AgreeAfter, AdmitAlikeAt;
    if AdmitAlike(c, a, b, ops) {
      forall k | 0 <= k <= |ops|
        ensures AgreeAfter(c, a, b, ops, k)
      {
        AgreeUpTo(c, a, b, ops, k);
      }
    }
    if forall k :: 0 <= k <= |ops| ==> AgreeAfter(c, a, b, ops, k) {
      forall k | 0 <= k < |ops| && ops[k].PutOp?
        ensures AdmitAlikeAt(c, a, b, ops, k)
      {
        AgreeStep(c, a, b, ops, k);
      }
    }
  }

  // ---------- the caches

  lemma {:induction false} PutsOnlyValid(ops: seq<Op>)
    requires ValidOps(ops)
    ensures ValidOps(PutsOnly(ops))
    decreases |ops|
  {
    if |ops| != 0 {
      PutsOnlyValid(ops[1..]);
    }
  }

  /** Type and bytes of every key after a run from a fresh cache. */
  ghost function ContentsAfter(c: Config, hash: Hasher, ops: seq<Op>): map<Key, Found>
    requires ValidConfig(c) && ValidOps(ops)
  {
    FreshRefines(c, hash);
    MachineRefines(Fresh(c), hash, Start(c), ops);
    Contents(Run(Fresh(c), hash, ops))
  }

  lemma ContentsAreAbstract(c: Config, hash: Hasher, ops: seq<Op>)
    requires ValidConfig(c) && ValidOps(ops)
    ensures ContentsAfter(c, hash, ops) == AbstractRun(c, Start(c), ops).contents
  {
    FreshRefines(c, hash);
    MachineRefines(Fresh(c), hash, Start(c), ops);
  }

  ghost predicate CachesAgree(c: Config, hash: Hasher, ops: seq<Op>)
    requires ValidConfig(c) && ValidOps(ops)
  {
    PutsOnlyValid(ops);
    ContentsAfter(c, hash, ops) == ContentsAfter(c, hash, PutsOnly(ops))
  }

  /** A cache that is given tables of frequent values at any points of its run, and one that is given
      none, hold the same types and bytes after every operation exactly when no insertion is admitted
      by one of them and refused by the other. */
  lemma DedupIsTransparent(c: Config, hash: Hasher, ops: seq<Op>)
    requires ValidConfig(c) && ValidOps(ops)
    requires Defined(Fresh(c), hash, ops) && Defined(Fresh(c), hash, PutsOnly(ops))
    ensures (forall k :: 0 <= k <= |ops| ==> CachesAgree(c, hash, ops[..k]))
            <==> AdmitAlike(c, Start(c), Start(c), ops)
  {
    hide Defined, AdmitAlike, CachesAgree, AgreeAfter;
    AgreeExactly(c, Start(c), Start(c), ops);
    forall k | 0 <= k <= |ops|
      ensures CachesAgree(c, hash, ops[..k]) <==> AgreeAfter(c, Start(c), Start(c), ops, k)
    {
      CachesAreAbstract(c, hash, ops, k);
    }
  }

  lemma CachesAreAbstract(c: Config, hash: Hasher, ops: seq<Op>, k: nat)
    requires ValidConfig(c) && ValidOps(ops) && k <= |ops|
    ensures ValidOps(ops[..k])
    ensures CachesAgree(c, hash, ops[..k]) <==> AgreeAfter(c, Start(c), Start(c), ops, k)
  {
    hide ContentsAfter, AbstractRun;
    PutsOnlyValid(ops[..k]);
    ContentsAreAbstract(c, hash, ops[..k]);
    ContentsAreAbstract(c, hash, PutsOnly(ops[..k]));
  }

  /** Not always: a value of 2^24 bytes is stored as an index into a table that holds it, and refused
      without the table. */
  lemma TableAdmitsMore(c: Config, hash: Hasher, v: seq<byte>)
    requires ValidConfig(c) && 0 < c.maxEntries && |v| == 0x100_0000
    ensures var ops := [InstallOp([v]), PutOp([], 0, v)];
            && ContentsAfter(c, hash, ops) == map[[] := Found(0, v)]
            && PutsOnly(ops) == [PutOp([], 0, v)]
            && ContentsAfter(c, hash, PutsOnly(ops)) == map[]
  {
    var put, install := PutOp([], 0, v), InstallOp([v]);
    var ops := [install, put];
    OnlyPut(install, put);
    ContentsAreAbstract(c, hash, ops);
    ContentsAreAbstract(c, hash, [put]);
    RoomAtStart(c);
    hide ContentsAfter, AbstractStep;
    AbstractRunPush(c, Start(c), [install], put);
    AbstractRunPush(c, Start(c), [], install);
    AbstractRunPush(c, Start(c), [], put);
    assert [install] + [put] == ops && [] + [install] == [install] && [] + [put] == [put];
    assert AbstractRun(c, Start(c), []) == Start(c);
    LargeValue(c, v);
  }

  lemma OnlyPut(install: Op, put: Op)
    requires install.InstallOp? && put.PutOp?
    ensures PutsOnly([install, put]) == [put]
  {
    assert [install, put] == [install] + [put];
    PutsOnlyPush([install], put);
    assert PutsOnly([install]) == PutsOnly([install][1..]);
  }

  lemma RoomAtStart(c: Config)
    requires ValidConfig(c)
    ensures Addressable(c, Start(c))
  {
    assert Pow(2, 4) == 16;
    PowMonotonic(2, 4, c.offsetBits);
  }

  lemma LargeValue(c: Config, v: seq<byte>)
    requires ValidConfig(c) && 0 < c.maxEntries && |v| == 0x100_0000
    ensures AbstractStep(c, AbstractStep(c, Start(c), InstallOp([v])), PutOp([], 0, v)).contents == map[[] := Found(0, v)]
    ensures AbstractStep(c, Start(c), PutOp([], 0, v)).contents == map[]
  {
    RoomAtStart(c);
  }

  // ---------- runs that never run out of room

  /** Along the run no value is too long and no record lies beyond the offset bits. */
  predicate NeverTooLarge(c: Config, a: Abstract, ops: seq<Op>)
    decreases |ops|
  {
    |ops| == 0 ||
    (&& (ops[0].PutOp? ==>
           || |a.contents| >= c.maxEntries || ops[0].key in a.contents || |ops[0].key| > 65535
           || (Storable(a.values, ops[0].key, ops[0].value) && Addressable(c, a)))
     && NeverTooLarge(c, AbstractStep(c, a, ops[0]), ops[1..]))
  }

  lemma {:induction false} AbstractTransparency(c: Config, a: Abstract, b: Abstract, ops: seq<Op>)
    requires a.contents == b.contents
    requires NeverTooLarge(c, a, ops) && NeverTooLarge(c, b, PutsOnly(ops))
    ensures AbstractRun(c, a, ops).contents == AbstractRun(c, b, PutsOnly(ops)).contents
    decreases |ops|
  {
    if |ops| != 0 {
      if ops[0].PutOp? {
        assert PutsOnly(ops)[1..] == PutsOnly(ops[1..]);
        AbstractTransparency(c, AbstractStep(c, a, ops[0]), AbstractStep(c, b, ops[0]), ops[1..]);
      } else {
        AbstractTransparency(c, AbstractStep(c, a, ops[0]), b, ops[1..]);
      }
    }
  }

  /** Such runs are defined. */
  lemma {:induction false} RoomIsDefined(c: Config, a: Abstract, ops: seq<Op>)
    requires NeverTooLarge(c, a, ops)
    ensures NoneStranded(c, a, ops)
    decreases |ops|
  {
    if |ops| > 0 {
      hide NoneStranded, AbstractStep;
      NoneStrandedStep(c, a, ops);
      RoomIsDefined(c, AbstractStep(c, a, ops[0]), ops[1..]);
    }
  }

  /** As long as neither runs out of room, both caches are defined and hold the same in the end. */
  lemma TransparentWithRoom(c: Config, hash: Hasher, ops: seq<Op>)
    requires ValidConfig(c) && ValidOps(ops)
    requires NeverTooLarge(c, Start(c), ops) && NeverTooLarge(c, Start(c), PutsOnly(ops))
    ensures Defined(Fresh(c), hash, ops) && Defined(Fresh(c), hash, PutsOnly(ops))
    ensures CachesAgree(c, hash, ops)
  {
    hide NeverTooLarge, Defined, NoneStranded, ContentsAfter;
    PutsOnlyValid(ops);
    RoomIsDefined(c, Start(c), ops);
    RoomIsDefined(c, Start(c), PutsOnly(ops));
    DefinedExactly(c, hash, ops);
    DefinedExactly(c, hash, PutsOnly(ops));
    AbstractTransparency(c, Start(c), Start(c), ops);
    ContentsAreAbstract(c, hash, ops);
    ContentsAreAbstract(c, hash, PutsOnly(ops));
  }
}
