/** The reader's reload beside running lookups: one reloader, any number of lookup threads, every
    interleaving of their shared accesses. */
module ReaderReload {
  import opened Bytes
  import CacheModel

  type FileType = CacheModel.CacheType

  /** The pointer that caches of a type are kept behind. */
  datatype Family = Probe | Dedup | Bucket

  function FamilyOf(t: FileType): Option<Family> {
    match t
    case LinearProbe => Some(Probe)
    case LinearProbeDedup => Some(Dedup)
    case LinearProbeDedupTyped => Some(Dedup)
    case BucketChain => Some(Bucket)
    case NoCache => None
    case MapCache => None
  }

  /** What a lookup answered from: a version, or nothing; and the times it began and answered. */
  datatype Answer = Answer(thread: int, version: Option<nat>, began: nat, ended: nat)

  /** A lookup that has read the type and not yet the pointer. */
  datatype Call = Call(family: Family, began: nat)

  /** Fully loaded caches are numbered in the order in which they are stored. */
  datatype State = State(cacheType: FileType, pointers: map<Family, nat>, loading: Option<FileType>,
                         published: nat, calls: map<int, Call>, answers: seq<Answer>, time: nat)

  datatype Action =
    | HeaderFails          // the file cannot be opened or its header cannot be read
    | SetType(t: FileType) // the type of the header is stored, before the cache is loaded
    | LoadFails            // loading throws
    | LoadEnds             // the loaded cache is stored, or there is nothing to load for the type
    | Begin(thread: int)   // a lookup reads the type
    | Finish(thread: int)  // the lookup reads the pointer and answers from what it got

  const START := State(CacheModel.LinearProbeDedup, map[], None, 0, map[], [], 0)

  /** The version behind the pointer for a type. */
  function Pointed(s: State, t: FileType): Option<nat> {
    match FamilyOf(t)
    case None => None
    case Some(f) => if f in s.pointers then Some(s.pointers[f]) else None
  }

  predicate Enabled(s: State, a: Action) {
    match a
    case HeaderFails => s.loading.None?
    case SetType(_) => s.loading.None?
    case LoadFails => s.loading.Some?
    case LoadEnds => s.loading.Some?
    case Begin(k) => k !in s.calls
    case Finish(k) => k in s.calls
  }

  function Step(s: State, a: Action): State
    requires Enabled(s, a)
  {
    var now := s.(time := s.time + 1);
    match a
    case HeaderFails => now
    case SetType(t) => now.(cacheType := t, loading := Some(t))
    case LoadFails => now.(loading := None)
    case LoadEnds =>
      (match FamilyOf(s.loading.value)
       case None => now.(loading := None)
       case Some(f) => now.(loading := None, pointers := s.pointers[f := s.published + 1], published := s.published + 1))
    case Begin(k) =>
      (match FamilyOf(s.cacheType)
       case None => now.(answers := s.answers + [Answer(k, None, s.time, s.time)])
       case Some(f) => now.(calls := s.calls[k := Call(f, s.time)]))
    case Finish(k) =>
      var c := s.calls[k];
      var version := if c.family in s.pointers then Some(s.pointers[c.family]) else None;
      now.(calls := s.calls - {k}, answers := s.answers + [Answer(k, version, c.began, s.time)])
  }

  /** A run, and the state after its first i actions. */
  ghost predicate IsRun(run: seq<Action>)
    decreases |run|, 0
  {
    |run| == 0 || (IsRun(run[..|run| - 1]) && Enabled(After(run[..|run| - 1]), run[|run| - 1]))
  }

  ghost function After(run: seq<Action>): State
    requires IsRun(run)
    decreases |run|, 1
  {
    if |run| == 0 then START else Step(After(run[..|run| - 1]), run[|run| - 1])
  }

  /** The newest fully loaded version. */
  ghost function Current(run: seq<Action>): Option<nat>
    requires IsRun(run)
  {
    if After(run).published == 0 then None else Some(After(run).published)
  }

  /** Once a version is published, a type may only be stored over one of its family. */
  predicate Suits(s: State, a: Action) {
    a.SetType? && s.published > 0 ==> FamilyOf(a.t) == FamilyOf(s.cacheType)
  }

  /** From the first published load on, all stored types are of its family. */
  ghost predicate Settled(run: seq<Action>)
    requires IsRun(run)
    decreases |run|
  {
    |run| == 0 || (Settled(run[..|run| - 1]) && Suits(After(run[..|run| - 1]), run[|run| - 1]))
  }

  predicate NotOlder(a: Option<nat>, b: Option<nat>) {
    a.None? || (b.Some? && a.value <= b.value)
  }

  // ---------- what every run keeps

  /** The lookup answered from the version that was current at moment k of it. */
  ghost predicate AnsweredAt(run: seq<Action>, a: Answer, k: nat)
    requires IsRun(run)
  {
    && a.began <= k <= a.ended < |run|
    && IsRun(run[..k]) && a.version == Current(run[..k])
  }

  ghost predicate AnsweredFromCurrent(run: seq<Action>, a: Answer)
    requires IsRun(run)
  {
    exists k: nat :: AnsweredAt(run, a, k)
  }

  /** A lookup that is under way began before the first version, or reads the family in use. */
  ghost predicate PendingIsSafe(run: seq<Action>, c: Call)
    requires IsRun(run)
  {
    && c.began <= |run|
    && (|| (IsRun(run[..c.began]) && Current(run[..c.began]) == None)
        || (After(run).published > 0 && FamilyOf(After(run).cacheType) == Some(c.family)))
  }

  /** Only the pointer of the family in use is ever set, and it has the newest version. */
  ghost predicate Control(s: State) {
    && (if s.published == 0 then s.pointers == map[]
        else FamilyOf(s.cacheType).Some? && s.pointers == map[FamilyOf(s.cacheType).value := s.published])
    && (s.loading.Some? ==> s.loading.value == s.cacheType)
  }

  ghost predicate AllCurrent(run: seq<Action>)
    requires IsRun(run)
  {
    forall i :: 0 <= i < |After(run).answers| ==> AnsweredFromCurrent(run, After(run).answers[i])
  }

  ghost predicate Inv(run: seq<Action>)
    requires IsRun(run)
  {
    var s := After(run);
    && s.time == |run| && Control(s)
    && (forall k :: k in s.calls ==> PendingIsSafe(run, s.calls[k]))
    && AllCurrent(run)
  }

  lemma PrefixIsRun(run: seq<Action>, k: nat)
    requires IsRun(run) && k <= |run|
    ensures IsRun(run[..k])
    decreases |run|
  {
    if k < |run| {
      PrefixIsRun(run[..|run| - 1], k);
      assert run[..|run| - 1][..k] == run[..k];
    } else {
      assert run[..k] == run;
    }
  }

  lemma AnswerStands(run: seq<Action>, a: Answer)
    requires |run| > 0 && IsRun(run) && AnsweredFromCurrent(run[..|run| - 1], a)
    ensures AnsweredFromCurrent(run, a)
  {
    var before := run[..|run| - 1];
    var k: nat :| AnsweredAt(before, a, k);
    assert before[..k] == run[..k];
    assert AnsweredAt(run, a, k);
  }

  lemma {:induction false} InvHolds(run: seq<Action>)
    requires IsRun(run) && Settled(run)
    ensures Inv(run)
    decreases |run|
  {
    if |run| > 0 {
      InvHolds(run[..|run| - 1]);
      InvStep(run);
    }
  }

  lemma InvStep(run: seq<Action>)
    requires |run| > 0 && IsRun(run) && Settled(run)
    requires Inv(run[..|run| - 1])
    ensures Inv(run)
  {
    hide AnsweredFromCurrent, Current, PendingIsSafe, Control, Step, Enabled, Suits;
    var n := |run| - 1;
    var s, s' := After(run[..n]), After(run);
    ControlStep(s, run[n]);
    WhatChanges(s, run[n]);
    forall k | k in s'.calls
      ensures PendingIsSafe(run, s'.calls[k])
    {
      if k in s.calls && s'.calls[k] == s.calls[k] {
        PendingStays(run, s.calls[k]);
      } else {
        PendingStarts(run, s'.calls[k]);
      }
    }
    forall i | 0 <= i < |s'.answers|
      ensures AnsweredFromCurrent(run, s'.answers[i])
    {
      if i < |s.answers| {
        AnswerStands(run, s.answers[i]);
      } else {
        AnswerIsCurrent(run, s'.answers[i]);
      }
    }
  }

  lemma ControlStep(s: State, a: Action)
    requires Enabled(s, a) && Control(s) && Suits(s, a)
    ensures Control(Step(s, a))
  {
  }

  /** A step starts at most one call and gives at most one answer. */
  lemma WhatChanges(s: State, a: Action)
    requires Enabled(s, a)
    ensures var s' := Step(s, a);
            && s'.time == s.time + 1
            && (forall k :: k in s'.calls && !(k in s.calls && s'.calls[k] == s.calls[k]) ==>
                  FamilyOf(s.cacheType) == Some(s'.calls[k].family) && s'.calls[k].began == s.time)
            && |s.answers| <= |s'.answers| <= |s.answers| + 1 && s'.answers[..|s.answers|] == s.answers
  {
  }

  lemma PendingStays(run: seq<Action>, c: Call)
    requires |run| > 0 && IsRun(run) && Settled(run) && PendingIsSafe(run[..|run| - 1], c)
    ensures PendingIsSafe(run, c)
  {
    assert run[..|run| - 1][..c.began] == run[..c.began];
  }

  lemma PendingStarts(run: seq<Action>, c: Call)
    requires |run| > 0 && IsRun(run) && Settled(run) && Inv(run[..|run| - 1])
    requires c.began == |run| - 1 && FamilyOf(After(run[..|run| - 1]).cacheType) == Some(c.family)
    ensures PendingIsSafe(run, c)
  {
  }

  /** A lookup that finds a version finds the newest one. One that finds none began when there was
      none, or answers when there is none. */
  lemma AnswerIsCurrent(run: seq<Action>, a: Answer)
    requires |run| > 0 && IsRun(run) && Inv(run[..|run| - 1])
    requires var s, s' := After(run[..|run| - 1]), After(run);
             |s'.answers| == |s.answers| + 1 && a == s'.answers[|s.answers|]
    ensures AnsweredFromCurrent(run, a)
  {
    var n := |run| - 1;
    var before := run[..n];
    var s := After(before);
    if a.version == Current(before) {
      assert AnsweredAt(run, a, n);
    } else {
      var c := s.calls[run[n].thread];
      assert PendingIsSafe(before, c);
      assert before[..c.began] == run[..c.began];
      assert AnsweredAt(run, a, c.began);
    }
  }

  lemma RunGrows(run: seq<Action>, a: Action)
    requires IsRun(run) && Enabled(After(run), a)
    ensures IsRun(run + [a]) && After(run + [a]) == Step(After(run), a)
  {
    assert (run + [a])[..|run|] == run;
  }

  // ---------- the theorems

  /** Every lookup answers from the fully loaded version that was current at some moment of the call,
      or from none if none was. */
  lemma LookupsAreCurrent(run: seq<Action>, i: nat)
    requires IsRun(run) && Settled(run) && i < |After(run).answers|
    ensures AnsweredFromCurrent(run, After(run).answers[i])
  {
    InvHolds(run);
  }

  lemma {:induction false} CurrentGrows(run: seq<Action>, k: nat, l: nat)
    requires IsRun(run) && k <= l <= |run|
    ensures IsRun(run[..k]) && IsRun(run[..l])
    ensures NotOlder(Current(run[..k]), Current(run[..l]))
    decreases l - k
  {
    PrefixIsRun(run, k);
    PrefixIsRun(run, l);
    if k < l {
      CurrentGrows(run, k, l - 1);
      assert run[..l][..l - 1] == run[..l - 1];
    }
  }

  /** A lookup that begins after another answered never answers from an older version. */
  lemma LaterLookupsAreNotOlder(run: seq<Action>, i: nat, j: nat)
    requires IsRun(run) && Settled(run) && i < |After(run).answers| && j < |After(run).answers|
    requires After(run).answers[i].ended < After(run).answers[j].began
    ensures NotOlder(After(run).answers[i].version, After(run).answers[j].version)
  {
    hide After, IsRun, Current;
    LookupsAreCurrent(run, i);
    LookupsAreCurrent(run, j);
    var k: nat :| AnsweredAt(run, After(run).answers[i], k);
    var l: nat :| AnsweredAt(run, After(run).answers[j], l);
    CurrentGrows(run, k, l);
  }

  /** The lookups of one thread follow each other. */
  ghost predicate Sequential(s: State) {
    && (forall i, j :: 0 <= i < j < |s.answers| && s.answers[i].thread == s.answers[j].thread ==>
          s.answers[i].ended < s.answers[j].began)
    && (forall i :: 0 <= i < |s.answers| ==>
          && s.answers[i].ended < s.time
          && (s.answers[i].thread in s.calls ==> s.answers[i].ended < s.calls[s.answers[i].thread].began))
  }

  lemma {:induction false} ThreadsAreSequential(run: seq<Action>)
    requires IsRun(run)
    ensures Sequential(After(run))
    decreases |run|
  {
    if |run| > 0 {
      ThreadsAreSequential(run[..|run| - 1]);
      SequentialStep(After(run[..|run| - 1]), run[|run| - 1]);
    }
  }

  lemma SequentialStep(s: State, a: Action)
    requires Enabled(s, a) && Sequential(s)
    ensures Sequential(Step(s, a))
  {
  }

  lemma ThreadsDoNotGoBack(run: seq<Action>, i: nat, j: nat)
    requires IsRun(run) && Settled(run) && i < j < |After(run).answers|
    requires After(run).answers[i].thread == After(run).answers[j].thread
    ensures NotOlder(After(run).answers[i].version, After(run).answers[j].version)
  {
    ThreadsAreSequential(run);
    LaterLookupsAreNotOlder(run, i, j);
  }

  /** What a lookup would answer from if nothing else happened in between. */
  function Visible(s: State): Option<nat> {
    Pointed(s, s.cacheType)
  }

  function FailedReload(s: State, t: FileType): State
    requires s.loading.None?
  {
    Step(Step(s, SetType(t)), LoadFails)
  }

  /** A reload that fails changes no answer, at any moment of it, if its type suits. */
  lemma FailedReloadIsInvisible(run: seq<Action>, t: FileType)
    requires IsRun(run) && Settled(run) && After(run).loading.None? && Suits(After(run), SetType(t))
    ensures var s := After(run);
            && Visible(Step(s, HeaderFails)) == Visible(s)
            && Visible(Step(s, SetType(t))) == Visible(s)
            && Visible(FailedReload(s, t)) == Visible(s)
  {
    hide After, IsRun;
    InvHolds(run);
  }

  /** Versions behind different pointers differ. */
  ghost predicate DistinctPointers(s: State) {
    && (forall f :: f in s.pointers ==> s.pointers[f] <= s.published)
    && (forall f, g :: f in s.pointers && g in s.pointers && s.pointers[f] == s.pointers[g] ==> f == g)
  }

  lemma {:induction false} PointersAreDistinct(run: seq<Action>)
    requires IsRun(run)
    ensures DistinctPointers(After(run))
    decreases |run|
  {
    hide DistinctPointers, Step;
    StartIsDistinct();
    if |run| > 0 {
      PointersAreDistinct(run[..|run| - 1]);
      PointersStayDistinct(After(run[..|run| - 1]), run[|run| - 1]);
    }
  }

  lemma StartIsDistinct()
    ensures DistinctPointers(START)
  {
  }

  lemma PointersStayDistinct(s: State, a: Action)
    requires Enabled(s, a) && DistinctPointers(s)
    ensures DistinctPointers(Step(s, a))
  {
    hide FamilyOf;
  }

  /** In general a failed reload changes no answer exactly when the file is of the family in use, or
      neither pointer was ever set: the type is changed before the cache is loaded. */
  lemma FailedReloadInGeneral(run: seq<Action>, t: FileType)
    requires IsRun(run) && After(run).loading.None?
    ensures var s := After(run);
            Visible(FailedReload(s, t)) == Visible(s)
            <==> FamilyOf(t) == FamilyOf(s.cacheType) || (Visible(s).None? && Pointed(s, t).None?)
  {
    hide After, IsRun;
    PointersAreDistinct(run);
  }

  /** A reload that succeeds puts the new version in sight at its end. While it lasts, lookups keep to
      the current version exactly when the file is of the family in use. */
  lemma ReloadWindow(run: seq<Action>, t: FileType)
    requires IsRun(run) && After(run).loading.None? && FamilyOf(t).Some?
    requires Current(run).Some? && Visible(After(run)) == Current(run)
    ensures var during := run + [SetType(t)];
            && IsRun(during) && IsRun(during + [LoadEnds])
            && (Visible(After(during)) == Current(during) <==> FamilyOf(t) == FamilyOf(After(run).cacheType))
            && Visible(After(during + [LoadEnds])) == Current(during + [LoadEnds])
            && Current(during + [LoadEnds]) == Some(Current(run).value + 1)
  {
    hide After, IsRun;
    PointersAreDistinct(run);
    RunGrows(run, SetType(t));
    RunGrows(run + [SetType(t)], LoadEnds);
  }

  // ---------- exactly these schedules keep every lookup current

  predicate IsLookup(a: Action) {
    a.Begin? || a.Finish?
  }

  /** What the reloader does in a run. */
  ghost function ScheduleOf(run: seq<Action>): seq<Action> {
    if |run| == 0 then []
    else
      var before := ScheduleOf(run[..|run| - 1]);
      if IsLookup(run[|run| - 1]) then before else before + [run[|run| - 1]]
  }

  ghost predicate IsSchedule(r: seq<Action>) {
    IsRun(r) && forall i :: 0 <= i < |r| ==> !IsLookup(r[i])
  }

  /** The fields that lookups read and do not write. */
  predicate SameReload(s: State, s': State) {
    s.cacheType == s'.cacheType && s.pointers == s'.pointers && s.loading == s'.loading && s.published == s'.published
  }

  lemma ReloadStep(s: State, s': State, a: Action)
    requires Enabled(s, a) && SameReload(s, s')
    ensures IsLookup(a) ==> SameReload(Step(s, a), s')
    ensures !IsLookup(a) ==> Enabled(s', a) && SameReload(Step(s, a), Step(s', a))
    ensures Suits(s, a) <==> IsLookup(a) || Suits(s', a)
  {
  }

  /** Lookups have no influence on the reloader. */
  lemma {:induction false} ScheduleDecides(run: seq<Action>)
    requires IsRun(run)
    ensures IsSchedule(ScheduleOf(run)) && SameReload(After(run), After(ScheduleOf(run)))
    ensures Settled(run) <==> Settled(ScheduleOf(run))
    decreases |run|
  {
    hide Step, Enabled, Suits, SameReload, IsLookup;
    if |run| > 0 {
      var before, a := run[..|run| - 1], run[|run| - 1];
      ScheduleDecides(before);
      ReloadStep(After(before), After(ScheduleOf(before)), a);
      if !IsLookup(a) {
        RunGrows(ScheduleOf(before), a);
        assert (ScheduleOf(before) + [a])[..|ScheduleOf(before)|] == ScheduleOf(before);
      }
    } else {
      SameReloadAsItself(START);
    }
  }

  lemma SameReloadAsItself(s: State)
    ensures SameReload(s, s)
  {
  }

  /** Some lookup has answered from a version that was current at no moment of it. */
  ghost predicate Misled(run: seq<Action>)
    requires IsRun(run)
  {
    exists i :: 0 <= i < |After(run).answers| && After(run).answers[i].ended < |run|
                && !AnsweredFromCurrent(run, After(run).answers[i])
  }

  lemma MisledForGood(run: seq<Action>, a: Action)
    requires IsRun(run) && Enabled(After(run), a) && Misled(run)
    ensures IsRun(run + [a]) && Misled(run + [a])
  {
    hide After, IsRun, Enabled, Step, AnsweredFromCurrent;
    RunGrows(run, a);
    var i :| 0 <= i < |After(run).answers| && After(run).answers[i].ended < |run|
             && !AnsweredFromCurrent(run, After(run).answers[i]);
    WhatChanges(After(run), a);
    assert After(run + [a]).answers[..|After(run).answers|][i] == After(run).answers[i];
    if AnsweredFromCurrent(run + [a], After(run).answers[i]) {
      AnswerStood(run, a, After(run).answers[i]);
    }
  }

  lemma AnswerStood(run: seq<Action>, b: Action, a: Answer)
    requires IsRun(run) && IsRun(run + [b]) && a.ended < |run| && AnsweredFromCurrent(run + [b], a)
    ensures AnsweredFromCurrent(run, a)
  {
    var k: nat :| AnsweredAt(run + [b], a, k);
    assert (run + [b])[..k] == run[..k];
    assert AnsweredAt(run, a, k);
  }

  lemma ScheduleGrows(run: seq<Action>, a: Action)
    ensures ScheduleOf(run + [a]) == if IsLookup(a) then ScheduleOf(run) else ScheduleOf(run) + [a]
  {
    assert (run + [a])[..|run|] == run;
  }

  lemma {:induction false} ScheduleAlone(r: seq<Action>)
    requires IsSchedule(r)
    ensures ScheduleOf(r) == r && After(r).calls == map[] && After(r).answers == [] && After(r).time == |r|
    decreases |r|
  {
    if |r| > 0 {
      ScheduleAlone(r[..|r| - 1]);
      assert r == r[..|r| - 1] + [r[|r| - 1]];
    }
  }

  /** Where a version is published, an answer from none was not current any more. */
  lemma NoneIsTooOld(run: seq<Action>, a: Answer, m: nat)
    requires IsRun(run) && m <= |run| && m <= a.began && a.version.None?
    requires IsRun(run[..m]) && Current(run[..m]).Some?
    ensures !AnsweredFromCurrent(run, a)
  {
    hide After, IsRun, Current;
    if AnsweredFromCurrent(run, a) {
      var k: nat :| AnsweredAt(run, a, k);
      CurrentGrows(run, m, k);
    }
  }

  /** After a type of another family is stored over a published one, the pointer for it is not set. */
  lemma NothingInSight(s: State, t: FileType)
    requires s.loading.None? && Control(s) && !Suits(s, SetType(t))
    ensures var s' := Step(s, SetType(t)); s'.published > 0 && s'.cacheType == t && Visible(s').None?
  {
  }

  /** The answer to a lookup that begins and answers at once. */
  lemma AnswerAtOnce(s: State)
    requires 0 !in s.calls
    ensures var s' := Step(s, Begin(0));
            if FamilyOf(s.cacheType).None? then s'.answers == s.answers + [Answer(0, None, s.time, s.time)]
            else Enabled(s', Finish(0))
                 && Step(s', Finish(0)).answers == s.answers + [Answer(0, Visible(s), s.time, s.time + 1)]
  {
  }

  /** A lookup that begins just after such a type was stored is misled. */
  lemma LookupIsMisled(r: seq<Action>, t: FileType) returns (run: seq<Action>)
    requires IsSchedule(r) && Settled(r) && After(r).loading.None? && !Suits(After(r), SetType(t))
    ensures IsRun(run) && ScheduleOf(run) == r + [SetType(t)] && Misled(run)
  {
    hide After, IsRun, Settled, AnsweredFromCurrent, ScheduleOf, Step, Suits, Visible, Control;
    InvHolds(r);
    NothingInSight(After(r), t);
    RunGrows(r, SetType(t));
    var stored := r + [SetType(t)];
    ScheduleAlone(stored);
    AnswerAtOnce(After(stored));
    RunGrows(stored, Begin(0));
    ScheduleGrows(stored, Begin(0));
    run := stored + [Begin(0)];
    if FamilyOf(t).Some? {
      RunGrows(run, Finish(0));
      ScheduleGrows(run, Finish(0));
      run := run + [Finish(0)];
    }
    assert run[..|stored|] == stored;
    NoneIsTooOld(run, After(run).answers[0], |stored|);
  }

  /** A schedule that is not settled misleads a lookup in some interleaving. */
  lemma {:induction false} SomeLookupIsMisled(r: seq<Action>) returns (run: seq<Action>)
    requires IsSchedule(r) && !Settled(r)
    ensures IsRun(run) && ScheduleOf(run) == r && Misled(run)
    decreases |r|
  {
    hide Step, AnsweredFromCurrent, ScheduleOf, Misled;
    var n := |r| - 1;
    var before, a := r[..n], r[n];
    assert r == before + [a];
    if Settled(before) {
      run := LookupIsMisled(before, a.t);
    } else {
      run := SomeLookupIsMisled(before);
      ScheduleDecides(run);
      ReloadStep(After(before), After(run), a);
      MisledForGood(run, a);
      ScheduleGrows(run, a);
      run := run + [a];
    }
  }

  /** Beside a given schedule of the reloader, every interleaving of lookups answers from current
      versions exactly when the schedule is settled. */
  lemma SettledExactly(r: seq<Action>)
    requires IsSchedule(r)
    ensures (forall run :: IsRun(run) && ScheduleOf(run) == r ==> AllCurrent(run)) <==> Settled(r)
  {
    hide After, IsRun, Settled, AnsweredFromCurrent, ScheduleOf;
    if Settled(r) {
      forall run | IsRun(run) && ScheduleOf(run) == r
        ensures AllCurrent(run)
      {
        ScheduleDecides(run);
        InvHolds(run);
      }
    } else {
      var run := SomeLookupIsMisled(r);
      assert !AllCurrent(run);
    }
  }

  /** Files of one family alone are such a schedule. */
  lemma {:induction false} OneFamilyIsSettled(run: seq<Action>, f: Family)
    requires IsRun(run) && forall i :: 0 <= i < |run| && run[i].SetType? ==> FamilyOf(run[i].t) == Some(f)
    ensures Settled(run)
    ensures After(run).loading.Some? || After(run).published > 0 ==> FamilyOf(After(run).cacheType) == Some(f)
    decreases |run|
  {
    if |run| > 0 {
      OneFamilyIsSettled(run[..|run| - 1], f);
    }
  }

  /** The types whose caches are kept behind the same pointer. */
  predicate SharePointer(t: FileType, u: FileType) {
    || ((t.LinearProbeDedup? || t.LinearProbeDedupTyped?) && (u.LinearProbeDedup? || u.LinearProbeDedupTyped?))
    || (t.LinearProbe? && u.LinearProbe?)
    || (t.BucketChain? && u.BucketChain?)
  }

  /** After a successful reload, lookups under a type see the new version exactly when the type shares
      the pointer of the file's type. */
  lemma WhoSeesIt(run: seq<Action>, t: FileType, u: FileType)
    requires IsRun(run) && After(run).loading.None?
    ensures var s := After(run);
            var s' := Step(Step(s, SetType(t)), LoadEnds);
            && s'.published == (if t.MapCache? || t.NoCache? then s.published else s.published + 1)
            && (Pointed(s', u) == Some(s.published + 1) <==> SharePointer(t, u))
  {
    hide After, IsRun;
    PointersAreDistinct(run);
  }

  lemma ReloadedState(s: State, t: FileType)
    requires s.loading.None? && FamilyOf(t).Some?
    ensures Step(Step(s, SetType(t)), LoadEnds)
            == s.(cacheType := t, pointers := s.pointers[FamilyOf(t).value := s.published + 1], published := s.published + 1,
                  time := s.time + 2)
  {
  }

  /** A lookup reads the pointer late: one that began before a reload and ends after it answers from the
      new version. */
  lemma LookupReadsLate(s: State, k: int, t: FileType)
    requires k !in s.calls && s.loading.None? && SharePointer(t, s.cacheType)
    ensures Enabled(s, Begin(k))
    ensures var begun := Step(s, Begin(k));
            && Enabled(begun, SetType(t))
            && var loaded := Step(Step(begun, SetType(t)), LoadEnds);
            && Enabled(loaded, Finish(k))
            && var answers := Step(loaded, Finish(k)).answers;
            answers == s.answers + [Answer(k, Some(s.published + 1), s.time, s.time + 3)]
  {
    hide Pointed;
    var begun := Step(s, Begin(k));
    ReloadedState(begun, t);
  }

  /** Two files of different families, and a failed reload of the first kind: the same thread sees
      version 2 and then version 1. */
  lemma MixedFamiliesGoBack()
    ensures exists run ::
              && IsRun(run) && |After(run).answers| == 2
              && After(run).answers[0] == Answer(0, Some(2), 4, 5)
              && After(run).answers[1] == Answer(0, Some(1), 8, 9)
  {
    hide After, IsRun;
    StartRuns();
    var r0: seq<Action> := [];
    RunGrows(r0, SetType(CacheModel.LinearProbe));
    var r1 := r0 + [SetType(CacheModel.LinearProbe)];
    RunGrows(r1, LoadEnds);
    var r2 := r1 + [LoadEnds];
    RunGrows(r2, SetType(CacheModel.LinearProbeDedup));
    var r3 := r2 + [SetType(CacheModel.LinearProbeDedup)];
    RunGrows(r3, LoadEnds);
    var r4 := r3 + [LoadEnds];
    RunGrows(r4, Begin(0));
    var r5 := r4 + [Begin(0)];
    RunGrows(r5, Finish(0));
    var r6 := r5 + [Finish(0)];
    RunGrows(r6, SetType(CacheModel.LinearProbe));
    var r7 := r6 + [SetType(CacheModel.LinearProbe)];
    RunGrows(r7, LoadFails);
    var r8 := r7 + [LoadFails];
    RunGrows(r8, Begin(0));
    var r9 := r8 + [Begin(0)];
    RunGrows(r9, Finish(0));
    var r10 := r9 + [Finish(0)];
    assert IsRun(r10) && |After(r10).answers| == 2;
  }

  lemma StartRuns()
    ensures IsRun([]) && After([]) == START
  {
  }
}
