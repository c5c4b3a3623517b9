/**
 The thread registry of an OMR VM (omr/OMR_VM.cpp, omr/OMR_VMThread.cpp): attaching and detaching
 threads under a limit, the attach counts layered on top, and the sweep of the child after a fork.
 */
module ThreadRegistry {
  import opened CircularList
  import opened MachineInts
  import opened Options

  datatype Code =
    | NoError
    | MaximumThreadCountExceeded
    | FailedToAttachNativeThread
    | FailedToAllocateMonitor
    | OutOfNativeMemory
    | ThreadNotAttached

  /** The fields of an `OMR_VMThread` that the registry reads or writes, links excepted. */
  datatype VMThread = VMThread(os: nat, internal: bool, language: nat, attachCount: int)

  /**
   The registry as a value: list of threads, live thread structures by address, the two counters,
   the configured maximum (0 for unlimited) and the thread-local slot of each operating system thread.
   */
  datatype Registry = Registry(
    list: seq<Address>, memory: map<Address, VMThread>, languageCount: Word, internalCount: Word,
    maximum: Word, tls: map<nat, Address>)

  // ---------------------------------------------------------------------------------------
  // attachThread and detachThread
  // ---------------------------------------------------------------------------------------

  /** The limit applies to language threads only. */
  predicate Refuses(r: Registry, t: Address)
    requires t in r.memory
  {
    !r.memory[t].internal && r.maximum != 0 && r.languageCount >= r.maximum
  }

  function AttachThread(r: Registry, t: Address): (Registry, Code)
    requires t in r.memory
  {
    var q := r.(tls := r.tls[r.memory[t].os := t]);
    if Refuses(r, t) then (q, MaximumThreadCountExceeded)
    else if r.memory[t].internal then (q.(list := r.list + [t], internalCount := Increment(r.internalCount)), NoError)
    else (q.(list := r.list + [t], languageCount := Increment(r.languageCount)), NoError)
  }

  /**
   A thread that is not on the list is counted off all the same; the list stays as it is when the old
   links of that thread are harmless (`CircularList.RemoveOffList`).
   */
  function DetachThread(r: Registry, t: Address): Registry
    requires t in r.memory
  {
    var list := if t in r.list then Delete(r.list, IndexOf(r.list, t)) else r.list;
    var q := r.(list := list, tls := r.tls - {r.memory[t].os});
    if r.memory[t].internal then q.(internalCount := Decrement(r.internalCount))
    else q.(languageCount := Decrement(r.languageCount))
  }

  /** How many of the listed threads are internal (or not). */
  function Count(list: seq<Address>, memory: map<Address, VMThread>, internal: bool): nat {
    if list == [] then 0
    else
      (if list[0] in memory && memory[list[0]].internal == internal then 1 else 0)
      + Count(list[1..], memory, internal)
  }

  predicate Listed(r: Registry) {
    Distinct(r.list) && forall t | t in r.list :: t in r.memory
  }

  predicate WellCounted(r: Registry) {
    && Listed(r)
    && r.internalCount == Count(r.list, r.memory, true)
    && r.languageCount == Count(r.list, r.memory, false)
    && (r.maximum != 0 ==> r.languageCount <= r.maximum)
  }

  lemma {:induction false} CountAppend(list: seq<Address>, memory: map<Address, VMThread>, internal: bool, t: Address)
    requires t in memory
    ensures Count(list + [t], memory, internal)
         == Count(list, memory, internal) + (if memory[t].internal == internal then 1 else 0)
  {
    if list == [] {
      assert [t][1..] == [];
    } else {
      CountAppend(list[1..], memory, internal, t);
      assert (list + [t])[1..] == list[1..] + [t];
    }
  }

  lemma {:induction false} CountDelete(list: seq<Address>, memory: map<Address, VMThread>, internal: bool, i: nat)
    requires i < |list| && list[i] in memory
    ensures Count(list, memory, internal)
         == Count(Delete(list, i), memory, internal) + (if memory[list[i]].internal == internal then 1 else 0)
  {
    if i == 0 {
      assert Delete(list, 0) == list[1..];
    } else {
      CountDelete(list[1..], memory, internal, i - 1);
      assert Delete(list, i)[1..] == Delete(list[1..], i - 1);
      assert Delete(list, i)[0] == list[0];
    }
  }

  lemma {:induction false} CountAtMost(list: seq<Address>, memory: map<Address, VMThread>, internal: bool)
    ensures Count(list, memory, internal) <= |list|
  {
    if list != [] {
      CountAtMost(list[1..], memory, internal);
    }
  }

  /** The counters cannot overflow: there are not as many addresses. */
  lemma CountFits(list: seq<Address>, memory: map<Address, VMThread>, internal: bool)
    requires Distinct(list)
    ensures Count(list, memory, internal) < TWO64
  {
    CountAtMost(list, memory, internal);
    DistinctFits(list);
  }

  datatype Call = Attach(t: Address) | Detach(t: Address)

  /** Attach a thread that is not listed; detach any thread. */
  predicate Possible(r: Registry, c: Call) {
    c.t in r.memory && (c.Attach? ==> c.t !in r.list)
  }

  /** The detach of a thread of the given kind that is not listed. */
  predicate Misses(r: Registry, c: Call, internal: bool) {
    c.Detach? && c.t in r.memory && c.t !in r.list && r.memory[c.t].internal == internal
  }

  /** Attach a thread that is not listed, detach one that is. */
  predicate Allowed(r: Registry, c: Call) {
    c.t in r.memory && (c.Attach? <==> c.t !in r.list)
  }

  function Perform(r: Registry, c: Call): Registry
    requires Possible(r, c)
  {
    match c
    case Attach(t) => AttachThread(r, t).0
    case Detach(t) => DetachThread(r, t)
  }

  lemma DeleteAppended(s: seq<Address>, x: Address)
    requires x !in s
    ensures x in s + [x] && IndexOf(s + [x], x) == |s| && Delete(s + [x], |s|) == s
  {
    var r := s + [x];
    assert r[|s|] == x;
    assert forall i | 0 <= i < |s| :: r[i] == s[i] && s[i] in s;
  }

  /**
   The counters are behind the listed threads by the numbers of misses of each kind, modulo 2^64, and as
   many language threads more than a nonzero maximum may be listed.
   */
  predicate Drifted(r: Registry, languageMisses: nat, internalMisses: nat) {
    && Listed(r)
    && r.languageCount == ToWord(Count(r.list, r.memory, false) - languageMisses)
    && r.internalCount == ToWord(Count(r.list, r.memory, true) - internalMisses)
    && (r.maximum != 0 ==> Count(r.list, r.memory, false) <= r.maximum + languageMisses)
  }

  lemma NotDrifted(r: Registry)
    ensures Drifted(r, 0, 0) <==> WellCounted(r)
  {
    if Listed(r) {
      CountFits(r.list, r.memory, true);
      CountFits(r.list, r.memory, false);
    }
  }

  lemma AttachKeepsDrift(r: Registry, t: Address, languageMisses: nat, internalMisses: nat)
    requires Drifted(r, languageMisses, internalMisses) && t in r.memory && t !in r.list
    ensures var q := AttachThread(r, t).0;
            Drifted(q, languageMisses, internalMisses) && q.maximum == r.maximum && q.memory == r.memory
  {
    var language, internal := Count(r.list, r.memory, false), Count(r.list, r.memory, true);
    CountAppend(r.list, r.memory, true, t);
    CountAppend(r.list, r.memory, false, t);
    CountFits(r.list, r.memory, false);
    ToWordSteps(language - languageMisses);
    ToWordSteps(internal - internalMisses);
  }

  lemma DetachKeepsDrift(r: Registry, t: Address, languageMisses: nat, internalMisses: nat)
    requires Drifted(r, languageMisses, internalMisses) && t in r.memory
    ensures Drifted(DetachThread(r, t), languageMisses + (if Misses(r, Detach(t), false) then 1 else 0),
                    internalMisses + (if Misses(r, Detach(t), true) then 1 else 0))
    ensures DetachThread(r, t).maximum == r.maximum && DetachThread(r, t).memory == r.memory
  {
    var language, internal := Count(r.list, r.memory, false), Count(r.list, r.memory, true);
    ToWordSteps(language - languageMisses);
    ToWordSteps(internal - internalMisses);
    if t in r.list {
      var i := IndexOf(r.list, t);
      CountDelete(r.list, r.memory, true, i);
      CountDelete(r.list, r.memory, false, i);
      DeleteMembers(r.list, i);
    }
  }

  /** What one call does to the drift: nothing, unless it misses. */
  lemma CallKeepsDrift(r: Registry, c: Call, languageMisses: nat, internalMisses: nat)
    requires Drifted(r, languageMisses, internalMisses) && Possible(r, c)
    ensures Drifted(Perform(r, c), languageMisses + (if Misses(r, c, false) then 1 else 0),
                    internalMisses + (if Misses(r, c, true) then 1 else 0))
    ensures Perform(r, c).maximum == r.maximum && Perform(r, c).memory == r.memory
  {
    match c
    case Attach(t) => AttachKeepsDrift(r, t, languageMisses, internalMisses);
    case Detach(t) => DetachKeepsDrift(r, t, languageMisses, internalMisses);
  }

  lemma CallKeepsCounts(r: Registry, c: Call)
    requires WellCounted(r) && Allowed(r, c)
    ensures WellCounted(Perform(r, c))
  {
    NotDrifted(r);
    CallKeepsDrift(r, c, 0, 0);
    NotDrifted(Perform(r, c));
  }

  /** `rs` are the registries that the calls `cs` lead through. */
  ghost predicate Run(rs: seq<Registry>, cs: seq<Call>) {
    && |rs| == |cs| + 1
    && forall i | 0 <= i < |cs| :: Allowed(rs[i], cs[i]) && rs[i + 1] == Perform(rs[i], cs[i])
  }

  /**
   Over every run of attaches, accepted or refused, and detaches, both counters are the numbers of
   listed threads of their kind and the language count stays within a nonzero maximum.
   */
  lemma {:induction false} RunKeepsCounts(rs: seq<Registry>, cs: seq<Call>, i: nat)
    requires Run(rs, cs) && WellCounted(rs[0]) && i <= |cs|
    ensures WellCounted(rs[i]) && rs[i].maximum == rs[0].maximum
  {
    if i > 0 {
      RunKeepsCounts(rs, cs, i - 1);
      CallKeepsCounts(rs[i - 1], cs[i - 1]);
    }
  }

  /** The same with detaches of any thread, listed or not. */
  ghost predicate LooseRun(rs: seq<Registry>, cs: seq<Call>) {
    && |rs| == |cs| + 1
    && forall i | 0 <= i < |cs| :: Possible(rs[i], cs[i]) && rs[i + 1] == Perform(rs[i], cs[i])
  }

  /** How many of the first `i` calls detached an unlisted thread of the given kind. */
  ghost function MissesOf(rs: seq<Registry>, cs: seq<Call>, i: nat, internal: bool): nat
    requires i <= |cs| <= |rs|
  {
    if i == 0 then 0
    else MissesOf(rs, cs, i - 1, internal) + (if Misses(rs[i - 1], cs[i - 1], internal) then 1 else 0)
  }

  lemma DriftStep(r: Registry, c: Call, q: Registry, m: nat, n: nat, m': nat, n': nat)
    requires Drifted(r, m, n) && Possible(r, c) && q == Perform(r, c)
    requires m' == m + (if Misses(r, c, false) then 1 else 0)
    requires n' == n + (if Misses(r, c, true) then 1 else 0)
    ensures Drifted(q, m', n') && q.maximum == r.maximum && q.memory == r.memory
  {
    CallKeepsDrift(r, c, m, n);
  }

  /**
   Over every run in which unlisted threads may be detached too, each counter is the number of listed
   threads of its kind less the misses so far, modulo 2^64, and the limit is exceeded by the misses at most.
   */
  lemma {:induction false} RunDrifts(rs: seq<Registry>, cs: seq<Call>, i: nat)
    requires LooseRun(rs, cs) && WellCounted(rs[0]) && i <= |cs|
    ensures Drifted(rs[i], MissesOf(rs, cs, i, false), MissesOf(rs, cs, i, true))
    ensures rs[i].maximum == rs[0].maximum && rs[i].memory == rs[0].memory
  {
    if i == 0 {
      NotDrifted(rs[0]);
    } else {
      RunDrifts(rs, cs, i - 1);
      var m, n := MissesOf(rs, cs, i - 1, false), MissesOf(rs, cs, i - 1, true);
      DriftStep(rs[i - 1], cs[i - 1], rs[i], m, n, MissesOf(rs, cs, i, false), MissesOf(rs, cs, i, true));
    }
  }

  /** When a language thread is refused after so many misses. */
  predicate LimitIs(r: Registry, t: Address, missed: nat)
    requires t in r.memory
  {
    var listed := Count(r.list, r.memory, false);
    && (Refuses(r, t) <==> ToWord(listed - missed) >= r.maximum)
    && (missed + r.maximum <= TWO64 ==> (Refuses(r, t) <==> listed < missed || listed >= r.maximum + missed))
  }

  /**
   The limit in effect anywhere in such a run. Unless so many threads were missed that the counter has come
   all the way down to the maximum again, the attach of a language thread is refused exactly when fewer are
   listed than were missed, because the counter has wrapped, or as many as the maximum and the misses together.
   */
  lemma LimitDrifts(rs: seq<Registry>, cs: seq<Call>, i: nat)
    requires LooseRun(rs, cs) && WellCounted(rs[0]) && i < |cs| && cs[i].Attach?
    requires !rs[i].memory[cs[i].t].internal && rs[i].maximum != 0
    ensures LimitIs(rs[i], cs[i].t, MissesOf(rs, cs, i, false))
  {
    RunDrifts(rs, cs, i);
    LimitAt(rs[i], MissesOf(rs, cs, i, false), MissesOf(rs, cs, i, true), cs[i].t);
  }

  lemma LimitAt(r: Registry, missed: nat, internalMissed: nat, t: Address)
    requires Drifted(r, missed, internalMissed) && t in r.memory && !r.memory[t].internal && r.maximum != 0
    ensures LimitIs(r, t, missed)
  {
    CountFits(r.list, r.memory, false);
    if missed + r.maximum <= TWO64 {
      WordReaches(Count(r.list, r.memory, false), missed, r.maximum);
    }
  }

  lemma WordReaches(listed: nat, missed: nat, maximum: Word)
    requires listed < TWO64 && missed + maximum <= TWO64
    ensures ToWord(listed - missed) >= maximum <==> listed < missed || listed >= maximum + missed
  {
  }

  // ---------------------------------------------------------------------------------------
  // Attach counts
  // ---------------------------------------------------------------------------------------

  function AddToCount(r: Registry, t: Address, n: int): Registry
    requires t in r.memory
  {
    r.(memory := r.memory[t := r.memory[t].(attachCount := r.memory[t].attachCount + n)])
  }

  /** `omr_attach_vmthread_to_vm`; `nativeOk` says whether `omrthread_attach_ex` succeeds. */
  function AttachVMThread(r: Registry, t: Address, nativeOk: bool): (Registry, Code)
    requires t in r.memory
  {
    if r.memory[t].attachCount > 0 then (AddToCount(r, t, 1), NoError)
    else if nativeOk then
      var (q, code) := AttachThread(r, t);
      (AddToCount(q, t, 1), code)
    else (r, FailedToAttachNativeThread)
  }

  /** `omr_detach_vmthread_from_vm`; the last detach takes the thread off the list. */
  function DetachVMThread(r: Registry, t: Address, nativeOk: bool): (Registry, Code)
    requires t in r.memory
  {
    if r.memory[t].attachCount > 1 then (AddToCount(r, t, -1), NoError)
    else if r.memory[t].attachCount == 1 then
      if nativeOk then (AddToCount(DetachThread(r, t), t, -1), NoError)
      else (r, FailedToAttachNativeThread)
    else (r, ThreadNotAttached)
  }

  /** A thread has a positive attach count exactly while it is listed. */
  predicate Tied(r: Registry) {
    forall t | t in r.memory :: r.memory[t].attachCount > 0 <==> t in r.list
  }

  lemma {:induction false} CountIgnoresAttachCount(list: seq<Address>, r: Registry, t: Address, n: int, internal: bool)
    requires t in r.memory
    ensures Count(list, AddToCount(r, t, n).memory, internal) == Count(list, r.memory, internal)
  {
    if list != [] {
      CountIgnoresAttachCount(list[1..], r, t, n, internal);
    }
  }

  lemma AddToCountKeepsCounts(r: Registry, t: Address, n: int)
    requires t in r.memory
    ensures WellCounted(AddToCount(r, t, n)) <==> WellCounted(r)
  {
    CountIgnoresAttachCount(r.list, r, t, n, true);
    CountIgnoresAttachCount(r.list, r, t, n, false);
  }

  /**
   Attaching through the counted interface keeps the counters right, and keeps the count tied to list
   membership exactly when the call is not the refused first attach of a language thread.
   */
  lemma AttachKeepsTieUnlessRefused(r: Registry, t: Address, nativeOk: bool)
    requires WellCounted(r) && Tied(r) && t in r.memory && r.memory[t].attachCount >= 0
    ensures var q := AttachVMThread(r, t, nativeOk).0;
            && WellCounted(q)
            && (Tied(q) <==> !(r.memory[t].attachCount == 0 && nativeOk && Refuses(r, t)))
  {
    var q := AttachVMThread(r, t, nativeOk).0;
    if r.memory[t].attachCount > 0 {
      AddToCountKeepsCounts(r, t, 1);
    } else if nativeOk {
      var a := AttachThread(r, t).0;
      CallKeepsCounts(r, Attach(t));
      AddToCountKeepsCounts(a, t, 1);
      if Refuses(r, t) {
        assert t in q.memory && q.memory[t].attachCount == 1 && t !in q.list;
      } else {
        assert forall x :: x in q.list <==> x in r.list || x == t;
      }
    }
  }

  /** Detaching keeps the tie, and never meets an unlisted thread while the tie holds. */
  lemma DetachKeepsTie(r: Registry, t: Address, nativeOk: bool)
    requires WellCounted(r) && Tied(r) && t in r.memory
    ensures r.memory[t].attachCount == 1 ==> t in r.list
    ensures var q := DetachVMThread(r, t, nativeOk).0; WellCounted(q) && Tied(q)
  {
    if r.memory[t].attachCount > 1 {
      AddToCountKeepsCounts(r, t, -1);
    } else if r.memory[t].attachCount == 1 && nativeOk {
      CallKeepsCounts(r, Detach(t));
      AddToCountKeepsCounts(DetachThread(r, t), t, -1);
      DeleteMembers(r.list, IndexOf(r.list, t));
    }
  }

  // ---------------------------------------------------------------------------------------
  // Runs of counted calls
  // ---------------------------------------------------------------------------------------

  datatype CountedCall = AttachTo(t: Address, nativeOk: bool) | DetachFrom(t: Address, nativeOk: bool)

  function PerformCounted(r: Registry, c: CountedCall): (Registry, Code)
    requires c.t in r.memory
  {
    match c
    case AttachTo(t, nativeOk) => AttachVMThread(r, t, nativeOk)
    case DetachFrom(t, nativeOk) => DetachVMThread(r, t, nativeOk)
  }

  /** `rs` are the registries that the calls `cs` lead through, `codes` what they answer. */
  ghost predicate CountedRun(rs: seq<Registry>, cs: seq<CountedCall>, codes: seq<Code>) {
    && |rs| == |cs| + 1 && |codes| == |cs|
    && forall i | 0 <= i < |cs| :: cs[i].t in rs[i].memory && (rs[i + 1], codes[i]) == PerformCounted(rs[i], cs[i])
  }

  /** No attach count is negative, and no listed thread has count 0. */
  predicate CountsOk(r: Registry) {
    && Distinct(r.list)
    && forall t | t in r.memory :: r.memory[t].attachCount >= 0 && (t in r.list ==> r.memory[t].attachCount > 0)
  }

  /** What a counted call adds to the attach count of `x`, as seen from its answer. */
  function CountChange(c: CountedCall, code: Code, x: Address): int {
    if c.t != x then 0
    else match c
      case AttachTo(_, _) => if code == FailedToAttachNativeThread then 0 else 1
      case DetachFrom(_, _) => if code == NoError then -1 else 0
  }

  /** The answer of a counted call, in both directions. */
  lemma CountedCallAnswers(r: Registry, c: CountedCall)
    requires CountsOk(r) && c.t in r.memory
    ensures
      var code, count := PerformCounted(r, c).1, r.memory[c.t].attachCount;
      if c.AttachTo? then
        && (code == FailedToAttachNativeThread <==> count == 0 && !c.nativeOk)
        && (code == MaximumThreadCountExceeded <==> count == 0 && c.nativeOk && Refuses(r, c.t))
        && (code == NoError <==> count > 0 || (c.nativeOk && !Refuses(r, c.t)))
      else
        && (code == ThreadNotAttached <==> count == 0)
        && (code == FailedToAttachNativeThread <==> count == 1 && !c.nativeOk)
        && (code == NoError <==> count > 1 || (count == 1 && c.nativeOk))
  {
  }

  /** Who is listed after a counted call: only the first accepted attach adds, only the last detach removes. */
  lemma CountedCallLists(r: Registry, c: CountedCall, x: Address)
    requires CountsOk(r) && c.t in r.memory
    ensures
      var (q, code) := PerformCounted(r, c);
      var count := r.memory[c.t].attachCount;
      && Distinct(q.list)
      && (x in q.list <==>
            if x != c.t then x in r.list
            else if c.AttachTo? then x in r.list || (count == 0 && code == NoError)
            else x in r.list && !(count == 1 && code == NoError))
  {
    if c.DetachFrom? && c.t in r.list {
      DeleteMembers(r.list, IndexOf(r.list, c.t));
    }
  }

  /** What a counted call, of any outcome, does to the structure of each thread. */
  lemma CountedCallCounts(r: Registry, c: CountedCall, x: Address)
    requires CountsOk(r) && c.t in r.memory && x in r.memory
    ensures
      var (q, code) := PerformCounted(r, c);
      && q.memory.Keys == r.memory.Keys && q.maximum == r.maximum
      && q.memory[x] == r.memory[x].(attachCount := r.memory[x].attachCount + CountChange(c, code, x))
  {
  }

  lemma CountedCallKeeps(r: Registry, c: CountedCall)
    requires CountsOk(r) && c.t in r.memory
    ensures CountsOk(PerformCounted(r, c).0)
  {
    var q := PerformCounted(r, c).0;
    CountedCallAnswers(r, c);
    CountedCallLists(r, c, c.t);
    forall x | x in q.memory
      ensures q.memory[x].attachCount >= 0 && (x in q.list ==> q.memory[x].attachCount > 0)
    {
      CountedCallCounts(r, c, c.t);
      CountedCallCounts(r, c, x);
      CountedCallLists(r, c, x);
    }
  }

  /** What the first `i` calls have added to the attach count of `x`, as seen from their answers. */
  ghost function Balance(cs: seq<CountedCall>, codes: seq<Code>, i: nat, x: Address): int
    requires i <= |cs| == |codes|
  {
    if i == 0 then 0 else Balance(cs, codes, i - 1, x) + CountChange(cs[i - 1], codes[i - 1], x)
  }

  /**
   Over every run of counted calls the attach count of a thread is the number of its attaches that found a
   native thread, the refused ones included, less the number of its detaches that answered NONE; nothing
   else about the thread changes, and while it is listed that number is positive.
   */
  lemma {:induction false} AttachCountBalances(
      rs: seq<Registry>, cs: seq<CountedCall>, codes: seq<Code>, i: nat, x: Address)
    requires CountedRun(rs, cs, codes) && CountsOk(rs[0]) && i <= |cs| && x in rs[0].memory
    ensures CountsOk(rs[i]) && rs[i].memory.Keys == rs[0].memory.Keys && rs[i].maximum == rs[0].maximum
    ensures rs[i].memory[x]
         == rs[0].memory[x].(attachCount := rs[0].memory[x].attachCount + Balance(cs, codes, i, x))
    ensures x in rs[i].list ==> rs[i].memory[x].attachCount > 0
  {
    if i > 0 {
      AttachCountBalances(rs, cs, codes, i - 1, x);
      CountedCallKeeps(rs[i - 1], cs[i - 1]);
      CountedCallCounts(rs[i - 1], cs[i - 1], x);
    }
  }

  /** In such a run a thread leaves the list exactly at the detach that takes the count of a listed thread to 0. */
  lemma LeavesAtZero(rs: seq<Registry>, cs: seq<CountedCall>, codes: seq<Code>, i: nat, x: Address)
    requires CountedRun(rs, cs, codes) && CountsOk(rs[0]) && i < |cs| && x in rs[0].memory && x in rs[i].list
    ensures rs[0].memory[x].attachCount + Balance(cs, codes, i, x) >= 1
    ensures x !in rs[i + 1].list <==> rs[0].memory[x].attachCount + Balance(cs, codes, i + 1, x) == 0
  {
    AttachCountBalances(rs, cs, codes, i, x);
    AttachCountBalances(rs, cs, codes, i + 1, x);
    CountedCallLists(rs[i], cs[i], x);
  }

  // ---------------------------------------------------------------------------------------
  // The thread-local slot
  // ---------------------------------------------------------------------------------------

  /** `omr_vmthread_getCurrent`: the thread in the slot of an operating system thread, if any. */
  function CurrentThread(r: Registry, os: nat): Option<Address> {
    if os in r.tls then Some(r.tls[os]) else None
  }

  /**
   An attach, accepted or refused, puts the thread into the slot of its operating system thread; a detach,
   listed or not, empties that slot; no other slot changes.
   */
  lemma SlotsFollow(r: Registry, t: Address, os: nat)
    requires t in r.memory
    ensures CurrentThread(AttachThread(r, t).0, os)
         == (if os == r.memory[t].os then Some(t) else CurrentThread(r, os))
    ensures CurrentThread(DetachThread(r, t), os)
         == (if os == r.memory[t].os then None else CurrentThread(r, os))
  {
  }

  /** The call reaches `attachThread` or `detachThread`: the first attach or the last detach of a thread. */
  predicate Reaches(r: Registry, c: CountedCall)
    requires c.t in r.memory
  {
    c.nativeOk && r.memory[c.t].attachCount == (if c.AttachTo? then 0 else 1)
  }

  lemma SlotAfterCall(r: Registry, c: CountedCall, os: nat)
    requires CountsOk(r) && c.t in r.memory
    ensures CurrentThread(PerformCounted(r, c).0, os)
         == if Reaches(r, c) && r.memory[c.t].os == os then (if c.AttachTo? then Some(c.t) else None)
            else CurrentThread(r, os)
  {
    SlotsFollow(r, c.t, os);
  }

  /** Call number `i` is a first attach or last detach on operating system thread `os`. */
  predicate MovesSlot(rs: seq<Registry>, cs: seq<CountedCall>, i: nat, os: nat)
    requires i < |cs| < |rs| && cs[i].t in rs[i].memory
  {
    Reaches(rs[i], cs[i]) && rs[i].memory[cs[i].t].os == os
  }

  /**
   Over every run of counted calls the slot of an operating system thread holds what the last first attach
   or last detach on it left: the thread attached, refused or not, or nothing.
   */
  lemma {:induction false} SlotHoldsLast(
      rs: seq<Registry>, cs: seq<CountedCall>, codes: seq<Code>, j: nat, i: nat, os: nat)
    requires CountedRun(rs, cs, codes) && CountsOk(rs[0]) && j < i <= |cs| && MovesSlot(rs, cs, j, os)
    requires forall k | j < k < i :: !MovesSlot(rs, cs, k, os)
    ensures CurrentThread(rs[i], os) == if cs[j].AttachTo? then Some(cs[j].t) else None
    decreases i
  {
    SlotAtNext(rs, cs, codes, i - 1, os);
    if i - 1 > j {
      assert !MovesSlot(rs, cs, i - 1, os);
      SlotHoldsLast(rs, cs, codes, j, i - 1, os);
    }
  }

  lemma SlotAtNext(rs: seq<Registry>, cs: seq<CountedCall>, codes: seq<Code>, i: nat, os: nat)
    requires CountedRun(rs, cs, codes) && CountsOk(rs[0]) && i < |cs|
    ensures CurrentThread(rs[i + 1], os)
         == if MovesSlot(rs, cs, i, os) then (if cs[i].AttachTo? then Some(cs[i].t) else None)
            else CurrentThread(rs[i], os)
  {
    CountsStayOk(rs, cs, codes, i);
    SlotAfterCall(rs[i], cs[i], os);
  }

  lemma CountsStayOk(rs: seq<Registry>, cs: seq<CountedCall>, codes: seq<Code>, i: nat)
    requires CountedRun(rs, cs, codes) && CountsOk(rs[0]) && i < |cs|
    ensures CountsOk(rs[i]) && rs[i].memory.Keys == rs[0].memory.Keys
  {
    KeysStay(rs, cs, codes, i);
    AttachCountBalances(rs, cs, codes, i, cs[i].t);
  }

  lemma {:induction false} KeysStay(rs: seq<Registry>, cs: seq<CountedCall>, codes: seq<Code>, i: nat)
    requires CountedRun(rs, cs, codes) && i <= |cs|
    ensures rs[i].memory.Keys == rs[0].memory.Keys
  {
    if i > 0 {
      KeysStay(rs, cs, codes, i - 1);
    }
  }

  /** With a limit of one, the second language thread is refused, yet its attach count says attached. */
  lemma RefusedThreadLooksAttached()
    ensures
      var r := Registry([], map[7 := VMThread(1, false, 0, 0), 8 := VMThread(2, false, 0, 0)], 0, 0, 1, map[]);
      var (q, first) := AttachVMThread(r, 7, true);
      var (p, second) := AttachVMThread(q, 8, true);
      && WellCounted(r) && Tied(r) && first == NoError && second == MaximumThreadCountExceeded
      && p.memory[8].attachCount == 1 && 8 !in p.list && 2 in p.tls && p.tls[2] == 8
  {
  }

  /**
   Detaching a thread that is not listed leaves the counter of its kind one below the number of listed
   threads, or at 2^64 - 1 if there are none.
   */
  lemma UnlistedDetachMiscounts(r: Registry, t: Address)
    requires WellCounted(r) && t in r.memory
    ensures WellCounted(DetachThread(r, t)) <==> t in r.list
    ensures t !in r.list ==>
              var q, listed := DetachThread(r, t), Count(r.list, r.memory, r.memory[t].internal);
              && q.list == r.list && q.memory == r.memory
              && (if r.memory[t].internal then q.internalCount else q.languageCount)
                   == if listed > 0 then listed - 1 else TWO64 - 1
  {
    CountFits(r.list, r.memory, r.memory[t].internal);
    if t in r.list {
      CallKeepsCounts(r, Detach(t));
    }
  }

  /**
   Detaching a language thread that is not listed moves a nonzero limit. While language threads are listed
   there is room for one more than the maximum; when none is, every language thread is refused from then on.
   */
  lemma RefusedDetachLiftsLimit(r: Registry, t: Address, u: Address)
    requires WellCounted(r) && t in r.memory && t !in r.list && !r.memory[t].internal && r.maximum != 0
    requires u in r.memory && u !in r.list && !r.memory[u].internal
    ensures
      var q := DetachThread(r, t);
      var (p, code) := AttachThread(q, u);
      && (code == NoError <==> Count(r.list, r.memory, false) > 0)
      && (Refuses(r, t) ==> Count(p.list, p.memory, false) == r.maximum + 1)
  {
    UnlistedDetachMiscounts(r, t);
    CountAppend(r.list, r.memory, false, u);
  }

  /** Once the counter is at 2^64 - 1, no run of attaches and detaches of listed threads brings it down. */
  lemma {:induction false} LockedOut(rs: seq<Registry>, cs: seq<Call>, i: nat)
    requires Run(rs, cs) && i <= |cs| && Listed(rs[0]) && rs[0].maximum != 0
    requires rs[0].languageCount == TWO64 - 1 && Count(rs[0].list, rs[0].memory, false) == 0
    ensures Listed(rs[i]) && rs[i].maximum == rs[0].maximum
    ensures rs[i].languageCount == TWO64 - 1 && Count(rs[i].list, rs[i].memory, false) == 0
    ensures forall t | t in rs[i].memory && !rs[i].memory[t].internal :: Refuses(rs[i], t)
  {
    if i > 0 {
      LockedOut(rs, cs, i - 1);
      var r, c := rs[i - 1], cs[i - 1];
      assert rs[i] == Perform(r, c);
      match c
      case Attach(t) => CountAppend(r.list, r.memory, false, t);
      case Detach(t) =>
        CountDelete(r.list, r.memory, false, IndexOf(r.list, t));
        DeleteMembers(r.list, IndexOf(r.list, t));
    }
  }

  /**
   `omr_vmthread_firstAttach` for `os`; `t` is the address of the structure if it can be allocated, and
   `monitorOk` says whether its name mutex can be.
   */
  function FirstAttach(r: Registry, t: Option<Address>, os: nat, monitorOk: bool): (Registry, Code)
    requires t.Some? ==> t.value !in r.memory
  {
    if t.None? then (r, OutOfNativeMemory)
    else if !monitorOk then (r, FailedToAllocateMonitor)
    else
      var q := r.(memory := r.memory[t.value := VMThread(os, true, 0, 0)]);
      var (a, code) := AttachThread(q, t.value);
      if code == NoError then (AddToCount(a, t.value, 1), NoError)
      else (a.(memory := a.memory - {t.value}), code)
  }

  function LastDetach(r: Registry, t: Address): Registry
    requires t in r.memory && t in r.list
  {
    var q := DetachThread(r, t);
    q.(memory := q.memory - {t})
  }

  /**
   A first attach is never refused, whatever the limit: it fails exactly when memory or a monitor is
   lacking, and then changes nothing. The matching last detach restores list, counters and memory; the
   slot of the operating system thread ends empty.
   */
  lemma FirstAttachLastDetach(r: Registry, t: Option<Address>, os: nat, monitorOk: bool)
    requires WellCounted(r) && (t.Some? ==> t.value !in r.memory)
    ensures var (q, code) := FirstAttach(r, t, os, monitorOk);
            && (code == OutOfNativeMemory <==> t.None?)
            && (code == NoError <==> t.Some? && monitorOk)
            && (code != NoError ==> q == r)
            && (code == NoError ==>
                  && WellCounted(q) && t.value in q.memory && t.value in q.list
                  && q.memory[t.value] == VMThread(os, true, 0, 1) && CurrentThread(q, os) == t
                  && LastDetach(q, t.value) == r.(tls := r.tls - {os}))
  {
    if t.Some? && monitorOk {
      FirstAttachKeepsCounts(r, t.value, os);
      LastDetachRestores(r, t.value, os);
    }
  }

  lemma LastDetachRestores(r: Registry, t: Address, os: nat)
    requires t !in r.memory && t !in r.list
    ensures var q := FirstAttach(r, Some(t), os, true).0;
            && t in q.memory && t in q.list && q.memory[t] == VMThread(os, true, 0, 1)
            && CurrentThread(q, os) == Some(t)
            && LastDetach(q, t) == r.(tls := r.tls - {os})
  {
    var q := FirstAttach(r, Some(t), os, true).0;
    DeleteAppended(r.list, t);
    assert q.list == r.list + [t];
    assert q.memory - {t} == r.memory;
    assert q.tls - {os} == r.tls - {os};
  }

  lemma FirstAttachKeepsCounts(r: Registry, t: Address, os: nat)
    requires WellCounted(r) && t !in r.memory
    ensures WellCounted(FirstAttach(r, Some(t), os, true).0)
  {
    var q := r.(memory := r.memory[t := VMThread(os, true, 0, 0)]);
    CountIgnoresUnlisted(r.list, r.memory, t, q.memory[t], true);
    CountIgnoresUnlisted(r.list, r.memory, t, q.memory[t], false);
    CallKeepsCounts(q, Attach(t));
    AddToCountKeepsCounts(AttachThread(q, t).0, t, 1);
  }

  lemma {:induction false} CountIgnoresUnlisted(
      list: seq<Address>, memory: map<Address, VMThread>, t: Address, thread: VMThread, internal: bool)
    requires t !in list
    ensures Count(list, memory[t := thread], internal) == Count(list, memory, internal)
  {
    if list != [] {
      CountIgnoresUnlisted(list[1..], memory, t, thread, internal);
    }
  }

  // ---------------------------------------------------------------------------------------
  // The sweep after a fork
  // ---------------------------------------------------------------------------------------

  predicate RunsOn(memory: map<Address, VMThread>, t: Address, self: nat, on: bool) {
    t in memory && (memory[t].os == self) == on
  }

  /** The listed threads that run on `self` (or do not), in list order. */
  function OnThread(list: seq<Address>, memory: map<Address, VMThread>, self: nat, on: bool): seq<Address> {
    if list == [] then []
    else
      var n := |list| - 1;
      var s := OnThread(list[..n], memory, self, on);
      if RunsOn(memory, list[n], self, on) then s + [list[n]] else s
  }

  lemma {:induction false} OnThreadMembers(
      list: seq<Address>, memory: map<Address, VMThread>, self: nat, on: bool, t: Address)
    ensures t in OnThread(list, memory, self, on) <==> t in list && RunsOn(memory, t, self, on)
  {
    if list != [] {
      var n := |list| - 1;
      OnThreadMembers(list[..n], memory, self, on, t);
      assert list == list[..n] + [list[n]];
    }
  }

  lemma OnThreadStep(list: seq<Address>, memory: map<Address, VMThread>, self: nat, on: bool, i: nat)
    requires i < |list| && list[i] in memory
    ensures OnThread(list[..i + 1], memory, self, on)
         == OnThread(list[..i], memory, self, on) + (if RunsOn(memory, list[i], self, on) then [list[i]] else [])
  {
    assert list[..i + 1][..i] == list[..i];
  }

  /** `x` stands somewhere before `y`. */
  predicate Before(list: seq<Address>, x: Address, y: Address) {
    exists i, j | 0 <= i < j < |list| :: list[i] == x && list[j] == y
  }

  /** `s` names threads in the order in which they stand in `list`. */
  predicate InListOrder(list: seq<Address>, s: seq<Address>) {
    forall a, b | 0 <= a < b < |s| :: Before(list, s[a], s[b])
  }

  lemma BeforeAppended(list: seq<Address>, t: Address, x: Address, y: Address)
    requires Before(list, x, y) || (x in list && y == t)
    ensures Before(list + [t], x, y)
  {
    var r := list + [t];
    if Before(list, x, y) {
      var i, j :| 0 <= i < j < |list| && list[i] == x && list[j] == y;
      assert r[i] == x && r[j] == y;
    } else {
      var i :| 0 <= i < |list| && list[i] == x;
      assert r[i] == x && r[|list|] == y;
    }
  }

  lemma {:induction false} OnThreadInOrder(list: seq<Address>, memory: map<Address, VMThread>, self: nat, on: bool)
    ensures InListOrder(list, OnThread(list, memory, self, on))
  {
    if list != [] {
      var n := |list| - 1;
      OnThreadInOrder(list[..n], memory, self, on);
      var s, r := OnThread(list[..n], memory, self, on), OnThread(list, memory, self, on);
      assert list == list[..n] + [list[n]];
      assert r == s || r == s + [list[n]];
      forall a, b | 0 <= a < b < |r|
        ensures Before(list, r[a], r[b])
      {
        assert r[a] == s[a];
        OnThreadMembers(list[..n], memory, self, on, s[a]);
        assert b < |s| ==> Before(list[..n], s[a], s[b]) && r[b] == s[b];
        BeforeAppended(list[..n], list[n], r[a], r[b]);
      }
    }
  }

  lemma {:induction false} OnThreadTotal(list: seq<Address>, memory: map<Address, VMThread>, self: nat)
    requires forall t | t in list :: t in memory
    ensures |OnThread(list, memory, self, true)| + |OnThread(list, memory, self, false)| == |list|
  {
    if list != [] {
      OnThreadTotal(list[..|list| - 1], memory, self);
    }
  }

  /** The threads on `self` and the others make up the whole list, each part in list order. */
  lemma OnThreadSplits(list: seq<Address>, memory: map<Address, VMThread>, self: nat, on: bool)
    requires forall t | t in list :: t in memory
    ensures |OnThread(list, memory, self, true)| + |OnThread(list, memory, self, false)| == |list|
    ensures InListOrder(list, OnThread(list, memory, self, on))
  {
    OnThreadTotal(list, memory, self);
    OnThreadInOrder(list, memory, self, on);
  }

  function LastOf(s: seq<Address>): Option<Address> {
    if s == [] then None else Some(s[|s| - 1])
  }

  function AsSet(s: seq<Address>): set<Address> {
    set t | t in s
  }

  lemma SubtractOneMore<V>(m: map<Address, V>, s: seq<Address>, x: Address)
    ensures m - AsSet(s) - {x} == m - AsSet(s + [x])
  {
    assert AsSet(s + [x]) == AsSet(s) + {x};
  }

  /** The language threads of the given threads, in order. */
  function LanguageThreads(ts: seq<Address>, memory: map<Address, VMThread>): seq<nat> {
    if ts == [] then []
    else
      var n := |ts| - 1;
      LanguageThreads(ts[..n], memory) + (if ts[n] in memory then [memory[ts[n]].language] else [])
  }

  /** Each thread hands back its own language thread. */
  lemma {:induction false} LanguageThreadsAt(ts: seq<Address>, memory: map<Address, VMThread>, k: nat)
    requires (forall t | t in ts :: t in memory) && k < |ts|
    ensures |LanguageThreads(ts, memory)| == |ts| && LanguageThreads(ts, memory)[k] == memory[ts[k]].language
    decreases |ts|
  {
    var n := |ts| - 1;
    if n > 0 {
      LanguageThreadsAt(ts[..n], memory, if k < n then k else 0);
    }
  }

  /** The first `i` threads of the list have been looked at, and those not on `self` freed. */
  predicate SweptTo(list: seq<Address>, mem: map<Address, VMThread>,
                    next: map<Address, Address>, prev: map<Address, Address>,
                    self: nat, i: nat,
                    memory: map<Address, VMThread>, nx: map<Address, Address>, pv: map<Address, Address>,
                    current: Option<Address>, released: seq<nat>) {
    && i <= |list|
    && var others := OnThread(list[..i], mem, self, false);
       && memory == mem - AsSet(others) && nx == next - AsSet(others) && pv == prev - AsSet(others)
       && released == LanguageThreads(others, mem) && current == LastOf(OnThread(list[..i], mem, self, true))
  }

  /** One more thread: it has not been freed yet, and is freed unless it runs on `self`. */
  lemma SweptNext(list: seq<Address>, mem: map<Address, VMThread>,
                  next: map<Address, Address>, prev: map<Address, Address>, self: nat, i: nat,
                  memory: map<Address, VMThread>, nx: map<Address, Address>, pv: map<Address, Address>,
                  current: Option<Address>, released: seq<nat>)
    requires SweptTo(list, mem, next, prev, self, i, memory, nx, pv, current, released) && Distinct(list)
    requires i < |list| && list[i] in mem && list[i] in next && list[i] in prev
    ensures
      var t := list[i];
      && t in memory && memory[t] == mem[t] && t in nx && nx[t] == next[t] && t in pv
      && (mem[t].os == self ==>
            SweptTo(list, mem, next, prev, self, i + 1, memory, nx, pv, Some(t), released))
      && (mem[t].os != self ==>
            SweptTo(list, mem, next, prev, self, i + 1, memory - {t}, nx - {t}, pv - {t}, current,
                    released + [mem[t].language]))
  {
    var t, others := list[i], OnThread(list[..i], mem, self, false);
    OnThreadMembers(list[..i], mem, self, false, t);
    OnThreadStep(list, mem, self, true, i);
    OnThreadStep(list, mem, self, false, i);
    SubtractOneMore(mem, others, t);
    SubtractOneMore(next, others, t);
    SubtractOneMore(prev, others, t);
    var kept := OnThread(list[..i], mem, self, true);
    assert kept + [] == kept && others + [] == others;
  }

  /** The sweep leaves no live thread outside the list exactly when one thread alone runs on `self`. */
  lemma SweepLeaksNothing(list: seq<Address>, memory: map<Address, VMThread>, self: nat)
    requires Distinct(list) && forall t | t in list :: t in memory
    requires OnThread(list, memory, self, true) != []
    ensures
      var kept := OnThread(list, memory, self, true);
      var current := kept[|kept| - 1];
      (forall t | t in list && t !in OnThread(list, memory, self, false) :: t == current) <==> |kept| == 1
  {
    var kept := OnThread(list, memory, self, true);
    var current := kept[|kept| - 1];
    OnThreadDistinct(list, memory, self, true);
    if |kept| > 1 {
      OnThreadMembers(list, memory, self, true, kept[0]);
      OnThreadMembers(list, memory, self, false, kept[0]);
      assert kept[0] != current;
    } else {
      forall t | t in list && t !in OnThread(list, memory, self, false)
        ensures t == current
      {
        OnThreadMembers(list, memory, self, true, t);
        OnThreadMembers(list, memory, self, false, t);
      }
    }
  }

  lemma {:induction false} OnThreadDistinct(list: seq<Address>, memory: map<Address, VMThread>, self: nat, on: bool)
    requires Distinct(list)
    ensures Distinct(OnThread(list, memory, self, on))
  {
    if list != [] {
      var n := |list| - 1;
      OnThreadDistinct(list[..n], memory, self, on);
      OnThreadMembers(list[..n], memory, self, on, list[n]);
    }
  }

  lemma SingleThreadCounts(r: Registry, t: Address)
    requires r.list == [t] && t in r.memory
    requires r.internalCount == (if r.memory[t].internal then 1 else 0)
    requires r.languageCount == 1 - r.internalCount
    ensures WellCounted(r)
  {
    assert r.list[1..] == [];
  }

  // ---------------------------------------------------------------------------------------
  // The object
  // ---------------------------------------------------------------------------------------

  class VM {
    const threads: LinkedList<Address>
    var memory: map<Address, VMThread>
    var languageCount: Word
    var internalCount: Word
    var maximum: Word
    var tls: map<nat, Address>
    var forkGeneration: nat

    ghost function State(): Registry
      reads this, threads
    {
      Registry(threads.elems, memory, languageCount, internalCount, maximum, tls)
    }

    ghost predicate Valid()
      reads this, threads
    {
      threads.Valid() && WellCounted(State())
    }

    /** The list is intact; the counters may be off. */
    ghost predicate Linked()
      reads this, threads
    {
      threads.Valid() && Listed(State())
    }

    constructor (limit: Word)
      ensures Valid() && fresh(threads)
      ensures State() == Registry([], map[], 0, 0, limit, map[])
    {
      threads := new LinkedList<Address>();
      memory, tls := map[], map[];
      languageCount, internalCount, maximum, forkGeneration := 0, 0, limit, 0;
    }

    /** A caller allocates a thread structure and fills it in. */
    method NewThread(t: Address, thread: VMThread)
      requires Linked() && t !in memory
      modifies this`memory
      ensures Linked() && memory == old(memory)[t := thread] && (old(Valid()) ==> Valid())
    {
      CountIgnoresUnlisted(threads.elems, memory, t, thread, true);
      CountIgnoresUnlisted(threads.elems, memory, t, thread, false);
      memory := memory[t := thread];
    }

    method Attach(t: Address) returns (code: Code)
      requires Linked() && t in memory && t !in threads.elems
      modifies this, threads
      ensures Linked() && (State(), code) == AttachThread(old(State()), t)
      ensures old(Valid()) ==> Valid()
      ensures KeepsSelfLinks(threads.elems, old(threads.next), old(threads.prev), threads.next, threads.prev)
    {
      if WellCounted(State()) {
        CallKeepsCounts(State(), Call.Attach(t));
      }
      code := NoError;
      var internal := memory[t].internal;
      if internal || maximum == 0 || languageCount < maximum {
        threads.AddLast(t);
        if internal {
          internalCount := Increment(internalCount);
        } else {
          languageCount := Increment(languageCount);
        }
      } else {
        code := MaximumThreadCountExceeded;
      }
      tls := tls[memory[t].os := t];
    }

    /** Detaches a listed thread, or one off the list whose old links are harmless. */
    method Detach(t: Address)
      requires Linked() && t in memory && (t in threads.elems || threads.Harmless(t))
      modifies this, threads
      ensures Linked() && State() == DetachThread(old(State()), t) && threads.Harmless(t)
      ensures old(Valid()) ==> (Valid() <==> t in old(threads.elems))
      ensures old(threads.elems) == [t] ==> SelfLinked(threads.next, threads.prev, t)
      ensures t in old(threads.elems) || old(SelfLinked(threads.next, threads.prev, t)) ==>
                KeepsSelfLinks(old(threads.elems), old(threads.next), old(threads.prev), threads.next, threads.prev)
    {
      if WellCounted(State()) {
        UnlistedDetachMiscounts(State(), t);
      }
      if memory[t].internal {
        internalCount := Decrement(internalCount);
      } else {
        languageCount := Decrement(languageCount);
      }
      threads.Remove(t);
      tls := tls - {memory[t].os};
    }

    /** `omr_attach_vmthread_to_vm`: counted attach, the first one enters the list. */
    method AttachCounted(t: Address, nativeOk: bool) returns (code: Code)
      requires Linked() && t in memory
      requires memory[t].attachCount <= 0 ==> t !in threads.elems
      modifies this, threads
      ensures Linked() && (State(), code) == AttachVMThread(old(State()), t, nativeOk)
      ensures old(Valid()) ==> Valid()
      ensures KeepsSelfLinks(threads.elems, old(threads.next), old(threads.prev), threads.next, threads.prev)
    {
      code := NoError;
      if memory[t].attachCount > 0 {
        AddToCountKeepsCounts(State(), t, 1);
        memory := memory[t := memory[t].(attachCount := memory[t].attachCount + 1)];
      } else if nativeOk {
        code := Attach(t);
        AddToCountKeepsCounts(State(), t, 1);
        memory := memory[t := memory[t].(attachCount := memory[t].attachCount + 1)];
      } else {
        code := FailedToAttachNativeThread;
      }
    }

    /** `omr_detach_vmthread_from_vm`: counted detach, the last one leaves the list. */
    method DetachCounted(t: Address, nativeOk: bool) returns (code: Code)
      requires Linked() && t in memory
      requires memory[t].attachCount == 1 && nativeOk ==> t in threads.elems || threads.Harmless(t)
      modifies this, threads
      ensures Linked() && (State(), code) == DetachVMThread(old(State()), t, nativeOk)
      ensures old(Valid()) ==>
                (Valid() <==> !(old(memory)[t].attachCount == 1 && nativeOk && t !in old(threads.elems)))
      ensures old(memory)[t].attachCount == 1 && nativeOk && old(threads.elems) == [t] ==>
                SelfLinked(threads.next, threads.prev, t)
      ensures t in old(threads.elems) || old(SelfLinked(threads.next, threads.prev, t)) ==>
                KeepsSelfLinks(old(threads.elems), old(threads.next), old(threads.prev), threads.next, threads.prev)
    {
      code := NoError;
      if memory[t].attachCount > 1 {
        AddToCountKeepsCounts(State(), t, -1);
        memory := memory[t := memory[t].(attachCount := memory[t].attachCount - 1)];
      } else if memory[t].attachCount == 1 {
        if nativeOk {
          Detach(t);
          AddToCountKeepsCounts(State(), t, -1);
          memory := memory[t := memory[t].(attachCount := memory[t].attachCount - 1)];
        } else {
          code := FailedToAttachNativeThread;
        }
      } else {
        code := ThreadNotAttached;
      }
    }

    /** A language thread in memory that is neither listed nor attached. */
    ghost predicate Idle(t: Address)
      reads this, threads
    {
      t in memory && t !in threads.elems && !memory[t].internal && memory[t].attachCount == 0
    }

    /**
     With a maximum of one: thread `a` was attached before, `b` is attached now, and the attach of `a` is
     refused. The links that `a` kept from the time when it was alone on the list still lead to itself.
     */
    method RefuseDetached(a: Address, b: Address)
      requires Valid() && maximum == 1 && threads.elems == [] && Idle(a) && Idle(b) && a != b
      modifies this, threads
      ensures Valid() && maximum == 1 && threads.elems == [b] && memory.Keys == old(memory.Keys)
      ensures memory[a] == old(memory)[a].(attachCount := 1) && memory[b] == old(memory)[b].(attachCount := 1)
      ensures forall t | t in memory && t != a && t != b :: memory[t] == old(memory)[t]
      ensures SelfLinked(threads.next, threads.prev, a)
    {
      var code := AttachCounted(a, true);
      assert threads.elems == [a];
      code := DetachCounted(a, true);
      assert threads.elems == [] && SelfLinked(threads.next, threads.prev, a);
      code := AttachCounted(b, true);
      assert threads.elems == [b] && SelfLinked(threads.next, threads.prev, a);
      assert b !in threads.elems[1..] && Count(threads.elems, memory, false) == 1;
      code := AttachCounted(a, true);
      assert code == MaximumThreadCountExceeded;
    }

    /** Now `a` is detached. It counts `b` off, so `c` is accepted: two threads where one is allowed. */
    method LiftLimit(a: Address, b: Address, c: Address) returns (code: Code)
      requires Valid() && maximum == 1 && threads.elems == [] && Idle(a) && Idle(b) && Idle(c)
      requires a != b && b != c && a != c
      modifies this, threads
      ensures code == NoError && Linked() && maximum == 1 && threads.elems == [b, c] && languageCount == 1
    {
      RefuseDetached(a, b);
      SelfLinkedHarmless(threads.elems, threads.next, threads.prev, a);
      code := DetachCounted(a, true);
      code := AttachCounted(c, true);
    }

    /** Or `b` is detached first. Then `a` counts zero down, and no language thread is accepted any more. */
    method LockOut(a: Address, b: Address)
      requires Valid() && maximum == 1 && threads.elems == [] && Idle(a) && Idle(b) && a != b
      modifies this, threads
      ensures Linked() && maximum == 1 && threads.elems == [] && languageCount == TWO64 - 1
      ensures forall t | t in memory && !memory[t].internal :: Refuses(State(), t)
    {
      RefuseDetached(a, b);
      var code := DetachCounted(b, true);
      assert threads.elems == [];
      SelfLinkedHarmless(threads.elems, threads.next, threads.prev, a);
      code := DetachCounted(a, true);
    }

    /** Frees the structure of a thread. */
    method Free(t: Address)
      requires t in memory && t in threads.next && t in threads.prev
      modifies this`memory, threads`next, threads`prev
      ensures memory == old(memory) - {t}
      ensures threads.next == old(threads.next) - {t} && threads.prev == old(threads.prev) - {t}
    {
      memory := memory - {t};
      threads.Free(t);
    }

    /** The walk of `omr_vm_postForkChild`: the next link is read before the current thread is freed. */
    method SweepOthers(self: nat) returns (current: Option<Address>, released: seq<nat>)
      requires threads.Valid() && forall t | t in threads.elems :: t in memory
      modifies this`memory, threads`next, threads`prev
      ensures
        var kept := OnThread(threads.elems, old(memory), self, true);
        var others := OnThread(threads.elems, old(memory), self, false);
        && current == LastOf(kept)
        && memory == old(memory) - AsSet(others)
        && threads.next == old(threads.next) - AsSet(others)
        && threads.prev == old(threads.prev) - AsSet(others)
        && released == LanguageThreads(others, old(memory))
    {
      ghost var list, mem, next, prev := threads.elems, memory, threads.next, threads.prev;
      ghost var i := 0;
      current, released := None, [];
      var walk := threads.root;
      while walk != None
        invariant 0 <= i <= |list|
        invariant walk == if i == |list| then None else Some(list[i])
        invariant SweptTo(list, mem, next, prev, self, i, memory, threads.next, threads.prev, current, released)
        decreases |list| - i
      {
        assert LinkedAt(list, next, prev, i);
        SweptNext(list, mem, next, prev, self, i, memory, threads.next, threads.prev, current, released);
        var nextThread := threads.NextDo(walk.value);
        if memory[walk.value].os == self {
          current := walk;
        } else {
          var languageThread := memory[walk.value].language;
          Free(walk.value);
          released := released + [languageThread];
        }
        walk := nextThread;
        i := i + 1;
      }
      assert list[..i] == list;
    }

    /** Resets the list and the counts to the one surviving thread. */
    method Restart(t: Address)
      requires t in memory
      modifies this`internalCount, this`languageCount, threads
      ensures Valid() && threads.elems == [t]
    {
      threads.root, threads.elems := None, [];
      if memory[t].internal {
        internalCount, languageCount := 1, 0;
      } else {
        internalCount, languageCount := 0, 1;
      }
      threads.AddLast(t);
      SingleThreadCounts(State(), t);
    }

    /**
     `omr_vm_postForkChild`. The walk frees exactly the threads that do not run on `self`, each once,
     hands their language threads back, and never touches a freed thread: every access needs the
     structure to be in memory. The assertion after the walk holds exactly when some listed thread runs
     on `self`; then the list holds that thread alone, with counts to match.
     */
    method PostForkChild(self: nat) returns (asserted: bool, released: seq<nat>)
      requires threads.Valid() && forall t | t in threads.elems :: t in memory
      modifies this, threads
      ensures
        var kept := OnThread(old(threads.elems), old(memory), self, true);
        var others := OnThread(old(threads.elems), old(memory), self, false);
        && (asserted <==> kept != [])
        && memory == old(memory) - AsSet(others)
        && released == LanguageThreads(others, old(memory))
        && (asserted ==> Valid() && threads.elems == [kept[|kept| - 1]])
      ensures maximum == old(maximum) && tls == old(tls) && forkGeneration == old(forkGeneration) + 1
    {
      forkGeneration := forkGeneration + 1;
      ghost var kept := OnThread(threads.elems, memory, self, true);
      ghost var others := OnThread(threads.elems, memory, self, false);
      var current;
      current, released := SweepOthers(self);
      asserted := current != None;
      if asserted {
        assert current.value in memory by {
          OnThreadMembers(threads.elems, old(memory), self, true, current.value);
          OnThreadMembers(threads.elems, old(memory), self, false, current.value);
        }
        Restart(current.value);
      } else {
        threads.root, threads.elems := None, [];
      }
    }
  }
}
