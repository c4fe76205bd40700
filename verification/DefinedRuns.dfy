/** When a run of operations is defined: an insertion that fails after the heap has moved leaves the
    key-space pointer on freed memory, and a later insertion would read there. */
module DefinedRuns {
  import opened Powers
  import opened Bytes
  import opened Records
  import opened ProbeTable
  import opened CacheModel
  import opened CacheLife
  import Memory

  /** The insertion appends a record that cannot be addressed and that makes the heap move. */
  predicate Strands(c: Config, a: Abstract, op: Op) {
    && op.PutOp? && Writes(c, a, op.key, op.value) && !Addressable(c, a)
    && Memory.Reallocates(8 * c.n + a.used, a.capacity, RecordSize(a.values, op.key, op.value))
  }

  predicate StrandsAt(c: Config, a: Abstract, ops: seq<Op>, i: nat)
    requires i < |ops|
  {
    Strands(c, AbstractRun(c, a, ops[..i]), ops[i])
  }

  /** No insertion follows one that strands the pointer. Sizes decide this, the hash does not. */
  ghost predicate NoneStranded(c: Config, a: Abstract, ops: seq<Op>) {
    forall i, j :: 0 <= i < j < |ops| && ops[j].PutOp? ==> !StrandsAt(c, a, ops, i)
  }

  ghost predicate NoPuts(ops: seq<Op>) {
    forall j :: 0 <= j < |ops| ==> !ops[j].PutOp?
  }

  lemma StrandsLater(c: Config, a: Abstract, ops: seq<Op>, i: nat)
    requires 0 < i < |ops|
    ensures StrandsAt(c, a, ops, i) <==> StrandsAt(c, AbstractStep(c, a, ops[0]), ops[1..], i - 1)
  {
    hide Strands, AbstractStep;
    assert ops[..i][1..] == ops[1..][..i - 1];
  }

  /** The first operation, and the rest of the run after it. */
  lemma NoneStrandedStep(c: Config, a: Abstract, ops: seq<Op>)
    requires |ops| > 0
    ensures NoneStranded(c, a, ops) <==>
            (Strands(c, a, ops[0]) ==> NoPuts(ops[1..])) && NoneStranded(c, AbstractStep(c, a, ops[0]), ops[1..])
  {
    hide Strands, AbstractStep, StrandsAt;
    var tail, a' := ops[1..], AbstractStep(c, a, ops[0]);
    StrandsFirst(c, a, ops);
    if NoneStranded(c, a, ops) {
      forall i, j | 0 <= i < j < |tail| && tail[j].PutOp?
        ensures !StrandsAt(c, a', tail, i)
      {
        StrandsLater(c, a, ops, i + 1);
        assert ops[j + 1].PutOp?;
      }
      forall j | 0 <= j < |tail| && Strands(c, a, ops[0])
        ensures !tail[j].PutOp?
      {
        assert tail[j] == ops[j + 1];
      }
    }
    if (Strands(c, a, ops[0]) ==> NoPuts(tail)) && NoneStranded(c, a', tail) {
      forall i, j | 0 <= i < j < |ops| && ops[j].PutOp?
        ensures !StrandsAt(c, a, ops, i)
      {
        assert tail[j - 1].PutOp?;
        if i > 0 {
          StrandsLater(c, a, ops, i);
        }
      }
    }
  }

  lemma StrandsFirst(c: Config, a: Abstract, ops: seq<Op>)
    requires |ops| > 0
    ensures StrandsAt(c, a, ops, 0) <==> Strands(c, a, ops[0])
  {
    assert ops[..0] == [];
  }

  /** The pointer dangles after an insertion exactly when the insertion strands it. */
  lemma PutDangles(s: State, hash: Hasher, a: Abstract, op: Op)
    requires Refines(s, hash, a) && !s.dangling && op.PutOp? && op.kind < 8
    ensures Step(s, hash, op).dangling <==> Strands(s.config, a, op)
  {
    hide Put, SlotMatches, Chained, WithinCollisions, Contents, Count, RecordSize, Represents;
    PutCorrect(s, hash, op.key, op.kind, op.value);
  }

  lemma {:induction false} DefinedFrom(s: State, hash: Hasher, a: Abstract, ops: seq<Op>)
    requires Refines(s, hash, a) && ValidOps(ops)
    requires ValidConfig(s.config) && |s.table| == s.config.n && 8 * s.config.n <= |s.heap|
    ensures Defined(s, hash, ops) <==> (s.dangling ==> NoPuts(ops)) && NoneStranded(s.config, a, ops)
    decreases |ops|
  {
    hide *;
    if |ops| > 0 {
      var op, tail := ops[0], ops[1..];
      DefinedStep(s, hash, ops);
      NoPutsStep(ops);
      NoneStrandedStep(s.config, a, ops);
      ValidOpsStep(ops);
      StepRefines(s, hash, a, op);
      DefinedFrom(Step(s, hash, op), hash, AbstractStep(s.config, a, op), tail);
      if op.InstallOp? {
        InstallKeepsPointer(s, hash, a, op);
      } else if !s.dangling {
        PutDangles(s, hash, a, op);
      }
    } else {
      DefinedNothing(s, hash, a, ops);
    }
  }

  lemma DefinedStep(s: State, hash: Hasher, ops: seq<Op>)
    requires ValidConfig(s.config) && |s.table| == s.config.n && 8 * s.config.n <= |s.heap| && |ops| > 0
    ensures Defined(s, hash, ops) <==> (ops[0].PutOp? ==> !s.dangling) && Defined(Step(s, hash, ops[0]), hash, ops[1..])
  {
    hide Step;
  }

  lemma ValidOpsStep(ops: seq<Op>)
    requires |ops| > 0 && ValidOps(ops)
    ensures ValidOps(ops[1..]) && (ops[0].PutOp? ==> ops[0].kind < 8)
  {
  }

  lemma DefinedNothing(s: State, hash: Hasher, a: Abstract, ops: seq<Op>)
    requires ValidConfig(s.config) && |s.table| == s.config.n && 8 * s.config.n <= |s.heap| && |ops| == 0
    ensures Defined(s, hash, ops) && NoPuts(ops) && NoneStranded(s.config, a, ops)
  {
  }

  lemma NoPutsStep(ops: seq<Op>)
    requires |ops| > 0
    ensures NoPuts(ops) <==> !ops[0].PutOp? && NoPuts(ops[1..])
  {
    if !ops[0].PutOp? && NoPuts(ops[1..]) {
      assert forall j :: 1 <= j < |ops| ==> ops[j] == ops[1..][j - 1];
    }
  }

  lemma InstallKeepsPointer(s: State, hash: Hasher, a: Abstract, op: Op)
    requires ValidConfig(s.config) && |s.table| == s.config.n && 8 * s.config.n <= |s.heap| && op.InstallOp?
    ensures Step(s, hash, op).dangling == s.dangling && !Strands(s.config, a, op)
  {
  }

  /** A run from a fresh cache is defined exactly when no insertion follows one that strands the
      pointer. */
  lemma DefinedExactly(c: Config, hash: Hasher, ops: seq<Op>)
    requires ValidConfig(c) && ValidOps(ops)
    ensures Defined(Fresh(c), hash, ops) <==> NoneStranded(c, Start(c), ops)
  {
    FreshRefines(c, hash);
    DefinedFrom(Fresh(c), hash, Start(c), ops);
  }

  /** A run that is not: the second of three insertions cannot be addressed and moves the heap. */
  lemma DanglingIsReachable(hash: Hasher, v: seq<byte>)
    requires |v| == 65536
    ensures !Defined(Fresh(Config(3, 16, 2, LinearProbeDedup)), hash, [PutOp([], 0, v), PutOp([1], 0, v), PutOp([2], 0, [])])
  {
    hide NoneStranded;
    var c := Config(3, 16, 2, LinearProbeDedup);
    var ops := [PutOp([], 0, v), PutOp([1], 0, v), PutOp([2], 0, [])];
    DefinedExactly(c, hash, ops);
    StrandedInsertion(c, v);
    assert ops[..1] == [PutOp([], 0, v)];
    assert AbstractRun(c, Start(c), ops[..1]) == AbstractStep(c, Start(c), ops[0]) by {
      assert ops[..1][1..] == [];
    }
    NotNoneStranded(c, Start(c), ops, 1, 2);
  }

  lemma NotNoneStranded(c: Config, a: Abstract, ops: seq<Op>, i: nat, j: nat)
    requires i < j < |ops| && ops[j].PutOp? && StrandsAt(c, a, ops, i)
    ensures !NoneStranded(c, a, ops)
  {
  }

  lemma StrandedInsertion(c: Config, v: seq<byte>)
    requires c == Config(3, 16, 2, LinearProbeDedup) && |v| == 65536
    ensures Strands(c, AbstractStep(c, Start(c), PutOp([], 0, v)), PutOp([1], 0, v))
  {
    assert Pow(2, 4) == 16;
    PowAdd(2, 4, 4);
    PowAdd(2, 8, 8);
    assert IndexOf([], v) == None;
    var a := AbstractStep(c, Start(c), PutOp([], 0, v));
    assert a.contents == map[[] := Found(0, v)];
    assert |a.contents| == 1;
  }
}
