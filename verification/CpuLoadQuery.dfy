/**
 The CPU-load queries as state machines: one abstract step, its runs, and the `OMR_SysInfo` object
 whose two query methods are shown to take exactly that step on their own records.
 */
module CpuLoadQuery {
  import opened CpuLoad
  import opened MachineInts
  import opened Options

  datatype Status = NoHistory | Supported | LoadErrorValue | InsufficientPrivilege | Unsupported

  /** What the port library answers when asked for a new record. */
  datatype Sample<R> = Sampled(record: R) | Refused(why: Status)

  datatype State<R> = State(status: Status, oldest: R, interim: R, negatives: int)

  /** Return code and what was stored through the output pointer, if anything. */
  datatype Reply = Reply(code: OmrError, written: Option<Double>)

  predicate Answering(status: Status) {
    status.Supported? || status.NoHistory?
  }

  /** The port library never reports a refusal with one of the two working statuses. */
  predicate GoodSample<R>(m: Meter<R>, sample: Sample<R>) {
    match sample
    case Sampled(r) => GoodStamp(m.stamp(r))
    case Refused(why) => !Answering(why)
  }

  // ---------------------------------------------------------------------------------------
  // The step
  // ---------------------------------------------------------------------------------------

  /** The second attempt of a call, against the oldest record. */
  function Fallback<R>(m: Meter<R>, s: State<R>, r: R): (State<R>, Reply) {
    match m.calculate(r, s.oldest)
    case Computed(load) => (s.(negatives := 0), Reply(ErrorNone, Some(load)))
    case Failed(NegativeInterval) => (s.(oldest := r, negatives := 0), Reply(ErrorInternal, None))
    case Failed(ElapsedTooSmall) => (s.(negatives := 0), Reply(ErrorRetry, None))
    case Failed(ElapsedNegative) =>
      if s.negatives == MAXIMUM_NEGATIVE_COUNT then (s.(oldest := r, negatives := 0), Reply(ErrorRetry, None))
      else (s.(negatives := s.negatives + 1), Reply(ErrorRetry, None))
  }

  function Step<R>(m: Meter<R>, s: State<R>, sample: Sample<R>): (State<R>, Reply) {
    if !Answering(s.status) then (s, Reply(ErrorNotAvailable, None))
    else match sample {
      case Refused(why) => (s.(status := why), Reply(ErrorNotAvailable, None))
      case Sampled(r) =>
        if s.status.NoHistory? then
          (s.(status := Supported, oldest := r, interim := r), Reply(ErrorRetry, None))
        else match m.calculate(r, s.interim) {
          case Computed(load) => (s.(oldest := s.interim, interim := r), Reply(ErrorNone, Some(load)))
          case Failed(NegativeInterval) => Fallback(m, s.(interim := r), r)
          case Failed(_) => Fallback(m, s, r)
        }
    }
  }

  function After<R>(m: Meter<R>, s: State<R>, samples: seq<Sample<R>>): State<R>
    decreases |samples|
  {
    if samples == [] then s
    else Step(m, After(m, s, samples[..|samples| - 1]), samples[|samples| - 1]).0
  }

  /** Reply to call number `i` of a run. */
  function ReplyTo<R>(m: Meter<R>, s: State<R>, samples: seq<Sample<R>>, i: nat): Reply
    requires i < |samples|
  {
    Step(m, After(m, s, samples[..i]), samples[i]).1
  }

  predicate Initial<R>(s: State<R>) {
    s.status.NoHistory? && s.negatives == 0
  }

  // ---------------------------------------------------------------------------------------
  // Run invariant
  // ---------------------------------------------------------------------------------------

  predicate Invariant<R>(m: Meter<R>, s: State<R>) {
    && 0 <= s.negatives <= MAXIMUM_NEGATIVE_COUNT
    && (s.status.Supported? ==>
          && GoodStamp(m.stamp(s.oldest)) && GoodStamp(m.stamp(s.interim))
          && m.stamp(s.oldest) < m.stamp(s.interim) + MINIMUM_INTERVAL)
  }

  lemma StepKeepsInvariant<R(!new)>(m: Meter<R>, s: State<R>, sample: Sample<R>)
    requires Regular(m) && Invariant(m, s) && GoodSample(m, sample)
    ensures Invariant(m, Step(m, s, sample).0)
    ensures s.status.Supported? ==> m.stamp(s.interim) <= m.stamp(Step(m, s, sample).0.interim)
    ensures Step(m, s, sample).0.status.NoHistory? ==> s.status.NoHistory?
  {
    if s.status.Supported? && sample.Sampled? {
      var c := m.calculate(sample.record, s.interim);
      var d := m.calculate(sample.record, s.oldest);
    }
  }

  /** Every reachable state satisfies the invariant. */
  lemma {:induction false} RunKeepsInvariant<R(!new)>(m: Meter<R>, s: State<R>, samples: seq<Sample<R>>)
    requires Regular(m) && Invariant(m, s)
    requires forall i | 0 <= i < |samples| :: GoodSample(m, samples[i])
    ensures Invariant(m, After(m, s, samples))
    decreases |samples|
  {
    if samples != [] {
      var prefix := samples[..|samples| - 1];
      RunKeepsInvariant(m, s, prefix);
      StepKeepsInvariant(m, After(m, s, prefix), samples[|samples| - 1]);
    }
  }

  /** Once there is a history, the interim time stamp never decreases over a run, however the clock moves. */
  lemma {:induction false} InterimNeverDecreases<R(!new)>(m: Meter<R>, s: State<R>, samples: seq<Sample<R>>)
    requires Regular(m) && Invariant(m, s) && s.status.Supported?
    requires forall i | 0 <= i < |samples| :: GoodSample(m, samples[i])
    ensures m.stamp(s.interim) <= m.stamp(After(m, s, samples).interim)
    ensures !After(m, s, samples).status.NoHistory?
    decreases |samples|
  {
    if samples != [] {
      var prefix, last := samples[..|samples| - 1], samples[|samples| - 1];
      InterimNeverDecreases(m, s, prefix);
      RunKeepsInvariant(m, s, prefix);
      var t := After(m, s, prefix);
      StepKeepsInvariant(m, t, last);
      if !t.status.Supported? {
        assert Step(m, t, last).0 == t;
      }
    }
  }

  /** A call that has just replaced the interim record never takes the negative-elapsed branch. */
  lemma ReplacedInterimNeverNegative<R(!new)>(m: Meter<R>, s: State<R>, r: R)
    requires Regular(m) && Invariant(m, s) && s.status.Supported? && GoodStamp(m.stamp(r))
    requires m.calculate(r, s.interim) == Failed(NegativeInterval)
    ensures m.calculate(r, s.oldest) != Failed(ElapsedNegative)
    ensures Step(m, s, Sampled(r)).0.negatives == 0
  {
    assert m.stamp(r) >= m.stamp(s.oldest);
  }

  /** An error status is final: it freezes the whole state and every later call reports NOT_AVAILABLE. */
  lemma {:induction false} ErrorStatusAbsorbs<R>(m: Meter<R>, s: State<R>, samples: seq<Sample<R>>)
    requires !Answering(s.status)
    ensures After(m, s, samples) == s
    ensures forall i | 0 <= i < |samples| :: ReplyTo(m, s, samples, i) == Reply(ErrorNotAvailable, None)
    decreases |samples|
  {
    if samples != [] {
      var prefix := samples[..|samples| - 1];
      ErrorStatusAbsorbs(m, s, prefix);
      forall i | 0 <= i < |samples|
        ensures ReplyTo(m, s, samples, i) == Reply(ErrorNotAvailable, None)
      {
        if i < |prefix| {
          assert samples[..i] == prefix[..i];
          assert ReplyTo(m, s, prefix, i) == Reply(ErrorNotAvailable, None);
        }
      }
    }
  }

  /** Both stored records are always records that some call of the run sampled. */
  lemma {:induction false} RecordsWereSampled<R>(m: Meter<R>, s: State<R>, samples: seq<Sample<R>>)
    requires Initial(s)
    requires forall i | 0 <= i < |samples| :: samples[i].Refused? ==> !Answering(samples[i].why)
    ensures var t := After(m, s, samples);
            t.status.Supported? ==> Sampled(t.oldest) in samples && Sampled(t.interim) in samples
    decreases |samples|
  {
    if samples != [] {
      var prefix, last := samples[..|samples| - 1], samples[|samples| - 1];
      assert samples == prefix + [last];
      RecordsWereSampled(m, s, prefix);
    }
  }

  // ---------------------------------------------------------------------------------------
  // What a reply means
  // ---------------------------------------------------------------------------------------

  /**
   The return code is determined by which stored records qualify: NONE when the interim or the oldest
   record does, INTERNAL when the oldest is old enough but its CPU time is ahead, RETRY otherwise. The
   load is written exactly for NONE, and is taken from the interim record whenever that qualifies.
   */
  lemma ReplyMeaning<R(!new)>(m: Meter<R>, s: State<R>, r: R)
    requires Regular(m) && Invariant(m, s) && s.status.Supported? && GoodStamp(m.stamp(r))
    ensures
      var (t, reply) := Step(m, s, Sampled(r));
      var onInterim, onOldest := Qualifies(m, r, s.interim), Qualifies(m, r, s.oldest);
      && (reply.written.Some? <==> reply.code == ErrorNone)
      && (reply.code == ErrorNone <==> onInterim || onOldest)
      && (reply.code == ErrorInternal <==>
            !onInterim && m.stamp(r) - m.stamp(s.oldest) >= MINIMUM_INTERVAL && !m.keepsUp(r, s.oldest))
      && (reply.code == ErrorRetry <==> !onInterim && m.stamp(r) - m.stamp(s.oldest) < MINIMUM_INTERVAL)
      && (onInterim ==> Computed(reply.written.value) == m.calculate(r, s.interim)
                        && t.oldest == s.interim && t.interim == r)
      && (!onInterim && onOldest ==> Computed(reply.written.value) == m.calculate(r, s.oldest)
                                     && t.oldest == s.oldest)
  {
    var c, d := m.calculate(r, s.interim), m.calculate(r, s.oldest);
  }

  /** Whatever the status: a load is written exactly for NONE, and NOT_AVAILABLE means an error status or a refusal. */
  lemma WrittenIffNone<R>(m: Meter<R>, s: State<R>, sample: Sample<R>)
    ensures
      var reply := Step(m, s, sample).1;
      && (reply.written.Some? <==> reply.code == ErrorNone)
      && (reply.code == ErrorNotAvailable <==> !Answering(s.status) || sample.Refused?)
  {
    if s.status.Supported? && sample.Sampled? {
      var c, d := m.calculate(sample.record, s.interim), m.calculate(sample.record, s.oldest);
    }
  }

  /** Call `i` sampled a record, call `j` an earlier one, and `load` is the load between the two. */
  predicate LoadBetween<R>(m: Meter<R>, samples: seq<Sample<R>>, j: nat, i: nat, load: Double)
    requires j < i < |samples|
  {
    && samples[j].Sampled? && samples[i].Sampled?
    && m.calculate(samples[i].record, samples[j].record) == Computed(load)
  }

  /** Every load that a run writes is the load between the sample of that call and one of an earlier call. */
  lemma LoadsAreBetweenSamples<R>(m: Meter<R>, s: State<R>, samples: seq<Sample<R>>, i: nat) returns (j: nat)
    requires Initial(s) && i < |samples| && ReplyTo(m, s, samples, i).written.Some?
    requires forall k | 0 <= k < |samples| :: samples[k].Refused? ==> !Answering(samples[k].why)
    ensures j < i && LoadBetween(m, samples, j, i, ReplyTo(m, s, samples, i).written.value)
  {
    var t := After(m, s, samples[..i]);
    RecordsWereSampled(m, s, samples[..i]);
    var r := samples[i].record;
    var from := if m.calculate(r, t.interim).Computed? then t.interim else t.oldest;
    j :| 0 <= j < i && samples[..i][j] == Sampled(from);
  }

  /** From record `s` to record `e` the system calculation neither overflows nor lacks a CPU. */
  predicate SystemPairFits(s: SystemTime, e: SystemTime) {
    GoodStamp(s.cpuTime) && GoodStamp(e.cpuTime) && 0 <= e.cpus && e.cpus * (e.timestamp - s.timestamp) < TWO63
  }

  /** Every load that a run of system queries writes is in [0,1], if no pair of its samples overflows. */
  lemma SystemLoadsInRange(s: State<SystemTime>, samples: seq<Sample<SystemTime>>, i: nat)
    requires Initial(s) && i < |samples| && ReplyTo(SystemMeter, s, samples, i).code == ErrorNone
    requires forall k | 0 <= k < |samples| :: GoodSample(SystemMeter, samples[k])
    requires forall j, k | 0 <= j < k < |samples| && samples[j].Sampled? && samples[k].Sampled? ::
               SystemPairFits(samples[j].record, samples[k].record)
    ensures ReplyTo(SystemMeter, s, samples, i).written.Some?
    ensures InUnitInterval(ReplyTo(SystemMeter, s, samples, i).written.value)
  {
    WrittenIffNone(SystemMeter, After(SystemMeter, s, samples[..i]), samples[i]);
    var j := LoadsAreBetweenSamples(SystemMeter, s, samples, i);
    SystemPairInRange(samples[i].record, samples[j].record);
  }

  lemma SystemPairInRange(e: SystemTime, s: SystemTime)
    requires GoodStamp(e.timestamp) && GoodStamp(s.timestamp) && SystemPairFits(s, e)
    requires CalculateSystemCpuLoad(e, s).Computed?
    ensures InUnitInterval(CalculateSystemCpuLoad(e, s).load)
  {
    IntervalExact(e.timestamp, s.timestamp);
    var delta := e.timestamp - s.timestamp;
    if e.cpus > 0 {
      PositiveProduct(e.cpus, delta);
    }
    assert Wrap64(e.cpus * delta) == e.cpus * delta;
    SystemLoadRange(e, s);
  }

  /** The same for the process calculation, with total CPU time that does not fall. */
  predicate ProcessPairFits(s: ProcessTime, e: ProcessTime) {
    && GoodStamp(s.systemTime) && GoodStamp(e.systemTime) && GoodStamp(s.userTime) && GoodStamp(e.userTime)
    && 1 <= e.cpus && e.cpus * (e.timestamp - s.timestamp) < TWO63
    && s.systemTime + s.userTime <= e.systemTime + e.userTime
  }

  /** Every load that a run of process queries writes is in [0,1], if all pairs of its samples fit. */
  lemma ProcessLoadsInRange(s: State<ProcessTime>, samples: seq<Sample<ProcessTime>>, i: nat)
    requires Initial(s) && i < |samples| && ReplyTo(ProcessMeter, s, samples, i).code == ErrorNone
    requires forall k | 0 <= k < |samples| :: GoodSample(ProcessMeter, samples[k])
    requires forall j, k | 0 <= j < k < |samples| && samples[j].Sampled? && samples[k].Sampled? ::
               ProcessPairFits(samples[j].record, samples[k].record)
    ensures ReplyTo(ProcessMeter, s, samples, i).written.Some?
    ensures InUnitInterval(ReplyTo(ProcessMeter, s, samples, i).written.value)
  {
    WrittenIffNone(ProcessMeter, After(ProcessMeter, s, samples[..i]), samples[i]);
    var j := LoadsAreBetweenSamples(ProcessMeter, s, samples, i);
    ProcessLoadRange(samples[i].record, samples[j].record);
  }

  // ---------------------------------------------------------------------------------------
  // What a call remembers
  // ---------------------------------------------------------------------------------------

  /**
   What a call with a history keeps, in terms of stamps and CPU times: the sample becomes the interim record
   exactly when it is a full interval later; the interim record becomes the oldest when it gave the load; the
   sample becomes the oldest when CPU time fell against the oldest, or on the fourth call before it.
   */
  lemma RecordsAfterCall<R(!new)>(m: Meter<R>, s: State<R>, r: R)
    requires Regular(m) && Invariant(m, s) && s.status.Supported? && GoodStamp(m.stamp(r))
    ensures
      var t := Step(m, s, Sampled(r)).0;
      var sinceInterim, sinceOldest := m.stamp(r) - m.stamp(s.interim), m.stamp(r) - m.stamp(s.oldest);
      var usable := sinceInterim >= MINIMUM_INTERVAL && m.keepsUp(r, s.interim);
      && t.status == Supported
      && t.interim == (if sinceInterim >= MINIMUM_INTERVAL then r else s.interim)
      && t.oldest == (if usable then s.interim
                      else if sinceOldest >= MINIMUM_INTERVAL && !m.keepsUp(r, s.oldest) then r
                      else if sinceOldest < 0 && s.negatives == MAXIMUM_NEGATIVE_COUNT then r
                      else s.oldest)
      && t.negatives == (if usable then s.negatives
                         else if sinceOldest < 0 && s.negatives < MAXIMUM_NEGATIVE_COUNT then s.negatives + 1
                         else 0)
  {
    var c, d := m.calculate(r, s.interim), m.calculate(r, s.oldest);
  }

  /** A run begins with one sample that is both records, and is told to retry. */
  lemma FirstCall<R>(m: Meter<R>, s: State<R>, samples: seq<Sample<R>>)
    requires Initial(s) && samples != [] && samples[0].Sampled?
    ensures ReplyTo(m, s, samples, 0) == Reply(ErrorRetry, None)
    ensures var r := samples[0].record; After(m, s, samples[..1]) == State(Supported, r, r, 0)
  {
    assert samples[..1][..0] == [];
    assert samples[..0] == [];
  }

  /**
   A refusal is remembered: if the port library refused call `i` of a run, every later call `j` finds the
   records and the counter as call `i` found them, in an error status (the one of the refusal unless there
   was one already), and answers NOT_AVAILABLE whatever it samples.
   */
  lemma RefusalIsFinal<R>(m: Meter<R>, s: State<R>, samples: seq<Sample<R>>, i: nat, j: nat)
    requires i < j < |samples| && samples[i].Refused?
    requires forall k | 0 <= k < |samples| :: samples[k].Refused? ==> !Answering(samples[k].why)
    ensures
      var t := After(m, s, samples[..i]);
      After(m, s, samples[..j]) == t.(status := if Answering(t.status) then samples[i].why else t.status)
    ensures ReplyTo(m, s, samples, i) == Reply(ErrorNotAvailable, None)
    ensures ReplyTo(m, s, samples, j) == Reply(ErrorNotAvailable, None)
  {
    assert samples[..i + 1][..i] == samples[..i];
    var u := After(m, s, samples[..i + 1]);
    AfterSplit(m, s, samples[..j], i + 1);
    assert samples[..j][..i + 1] == samples[..i + 1];
    ErrorStatusAbsorbs(m, u, samples[..j][i + 1..]);
  }

  lemma {:induction false} AfterSplit<R>(m: Meter<R>, s: State<R>, samples: seq<Sample<R>>, k: nat)
    requires k <= |samples|
    ensures After(m, s, samples) == After(m, After(m, s, samples[..k]), samples[k..])
    decreases |samples|
  {
    if k == |samples| {
      assert samples[..k] == samples;
    } else {
      var n := |samples| - 1;
      AfterSplit(m, s, samples[..n], k);
      assert samples[..n][..k] == samples[..k];
      assert samples[..n][k..] == samples[k..][..n - k];
    }
  }

  // ---------------------------------------------------------------------------------------
  // The negative-elapsed counter
  // ---------------------------------------------------------------------------------------

  /** The call found its sample before the oldest record. */
  predicate WentBack<R>(m: Meter<R>, s: State<R>, r: R) {
    !m.calculate(r, s.interim).Computed? && m.calculate(r, s.oldest) == Failed(ElapsedNegative)
  }

  /**
   The counter is meant to count consecutive backward calls. A call that did not go back restarts the
   count except when it succeeded against the interim record while the counter was not zero.
   */
  lemma CounterRestarts<R>(m: Meter<R>, s: State<R>, r: R)
    requires s.status.Supported? && !WentBack(m, s, r)
    ensures Step(m, s, Sampled(r)).0.negatives == 0
       <==> !(m.calculate(r, s.interim).Computed? && s.negatives != 0)
  {
    var c, d := m.calculate(r, s.interim), m.calculate(r, s.oldest);
  }

  function Tick(ms: nat): SystemTime {
    SystemTime(ms * 1_000_000, ms * 1_000_000, 1)
  }

  /** Backward calls separated by successful ones still add up: the third one here finds the counter at 2. */
  lemma CounterNotConsecutive(s: State<SystemTime>)
    requires s == State(Supported, Tick(10), Tick(20), 0)
    ensures
      var run := [Sampled(Tick(5)), Sampled(Tick(30)), Sampled(Tick(6)), Sampled(Tick(40))];
      && ReplyTo(SystemMeter, s, run, 1).code == ErrorNone
      && ReplyTo(SystemMeter, s, run, 3).code == ErrorNone
      && After(SystemMeter, s, run).negatives == 2
  {
    var run := [Sampled(Tick(5)), Sampled(Tick(30)), Sampled(Tick(6)), Sampled(Tick(40))];
    SystemMeterRegular();
    assert run[..0] == [];
    assert run[..1] == [run[0]];
    assert run[..2][..1] == run[..1];
    assert run[..3][..2] == run[..2];
    var s1 := Step(SystemMeter, s, run[0]).0;
    assert s1 == s.(negatives := 1) && After(SystemMeter, s, run[..1]) == s1;
    var s2 := Step(SystemMeter, s1, run[1]).0;
    assert s2 == State(Supported, Tick(20), Tick(30), 1) && After(SystemMeter, s, run[..2]) == s2;
    var s3 := Step(SystemMeter, s2, run[2]).0;
    assert s3 == s2.(negatives := 2) && After(SystemMeter, s, run[..3]) == s3;
  }

  // ---------------------------------------------------------------------------------------
  // Bounded recovery
  // ---------------------------------------------------------------------------------------

  /** Samples at least 1 ms apart. */
  predicate Spaced<R>(m: Meter<R>, rs: seq<R>) {
    && (forall i | 0 <= i < |rs| :: GoodStamp(m.stamp(rs[i])))
    && (forall i, j | 0 <= i < j < |rs| :: m.stamp(rs[j]) - m.stamp(rs[i]) >= MINIMUM_INTERVAL)
  }

  /** No sample's CPU time falls below that of a stored record or of an earlier sample. */
  predicate CpuKeepsUp<R>(m: Meter<R>, s: State<R>, rs: seq<R>) {
    && (forall i | 0 <= i < |rs| :: m.keepsUp(rs[i], s.oldest) && m.keepsUp(rs[i], s.interim))
    && (forall i, j | 0 <= i < j < |rs| :: m.keepsUp(rs[j], rs[i]))
  }

  /** Number of RETRY replies before the first success from state `s`; `rs` holds the samples to come. */
  function CallsToSuccess<R>(m: Meter<R>, s: State<R>, rs: seq<R>): nat
    decreases |rs|
  {
    if rs == [] || Step(m, s, Sampled(rs[0])).1.code == ErrorNone then 0
    else 1 + CallsToSuccess(m, Step(m, s, Sampled(rs[0])).0, rs[1..])
  }

  /** How many failing calls can still lie ahead. */
  function Patience<R>(s: State<R>): int {
    MAXIMUM_NEGATIVE_COUNT + 1 - s.negatives
  }

  lemma {:induction false} RecoverFrom<R(!new)>(m: Meter<R>, s: State<R>, rs: seq<R>, budget: nat)
    requires Regular(m) && Invariant(m, s) && s.status.Supported?
    requires Spaced(m, rs) && CpuKeepsUp(m, s, rs)
    requires budget < |rs|
    requires
      // one more call suffices if the next sample is a full interval after the oldest record
      if m.stamp(rs[0]) - m.stamp(s.oldest) >= MINIMUM_INTERVAL then true
      else if m.stamp(rs[0]) >= m.stamp(s.oldest) then budget >= 1
      else budget >= Patience(s)
    ensures CallsToSuccess(m, s, rs) <= budget
    decreases budget
  {
    var r := rs[0];
    var (t, reply) := Step(m, s, Sampled(r));
    var c, d := m.calculate(r, s.interim), m.calculate(r, s.oldest);
    if reply.code != ErrorNone {
      StepKeepsInvariant(m, s, Sampled(r));
      var rest := rs[1..];
      assert forall i | 0 <= i < |rest| :: rest[i] == rs[i + 1];
      assert t.oldest == s.oldest || t.oldest == r;
      assert t.interim == s.interim;
      assert m.stamp(rest[0]) - m.stamp(r) >= MINIMUM_INTERVAL;
      RecoverFrom(m, t, rest, budget - 1);
    }
  }

  /** From any state of the invariant, one of the next five spaced calls succeeds. */
  lemma BoundedRecovery<R(!new)>(m: Meter<R>, s: State<R>, rs: seq<R>)
    requires Regular(m) && Invariant(m, s) && s.status.Supported?
    requires Spaced(m, rs) && CpuKeepsUp(m, s, rs) && |rs| == 5
    ensures CallsToSuccess(m, s, rs) <= 4
    ensures exists i | 0 <= i < 5 :: ReplyTo(m, s, Calls(rs), i).code == ErrorNone
  {
    RecoverFrom(m, s, rs, 4);
    CallsToSuccessIndex(m, s, rs);
  }

  /** The same from the start: after any run that leaves the query supported, however the clock has moved. */
  lemma ReachableRecovery<R(!new)>(m: Meter<R>, s: State<R>, history: seq<Sample<R>>, rs: seq<R>)
    requires Regular(m) && Initial(s)
    requires forall i | 0 <= i < |history| :: GoodSample(m, history[i])
    requires After(m, s, history).status.Supported?
    requires Spaced(m, rs) && CpuKeepsUp(m, After(m, s, history), rs) && |rs| == 5
    ensures exists i | 0 <= i < 5 :: ReplyTo(m, After(m, s, history), Calls(rs), i).code == ErrorNone
  {
    RunKeepsInvariant(m, s, history);
    BoundedRecovery(m, After(m, s, history), rs);
  }

  function Calls<R>(rs: seq<R>): (samples: seq<Sample<R>>)
    ensures |samples| == |rs| && forall i | 0 <= i < |rs| :: samples[i] == Sampled(rs[i])
  {
    seq(|rs|, i requires 0 <= i < |rs| => Sampled(rs[i]))
  }

  lemma {:induction false} AfterCons<R>(m: Meter<R>, s: State<R>, samples: seq<Sample<R>>)
    requires samples != []
    ensures After(m, s, samples) == After(m, Step(m, s, samples[0]).0, samples[1..])
    decreases |samples|
  {
    var n := |samples| - 1;
    if n == 0 {
      assert samples[..0] == [];
    } else {
      AfterCons(m, s, samples[..n]);
      assert samples[..n][1..] == samples[1..][..n - 1];
    }
  }

  lemma {:induction false} CallsToSuccessIndex<R>(m: Meter<R>, s: State<R>, rs: seq<R>)
    ensures var n := CallsToSuccess(m, s, rs);
            n < |rs| ==> ReplyTo(m, s, Calls(rs), n).code == ErrorNone
    decreases |rs|
  {
    var n := CallsToSuccess(m, s, rs);
    if rs != [] && n < |rs| {
      if n == 0 {
        assert Calls(rs)[..0] == [];
      } else {
        var t := Step(m, s, Sampled(rs[0])).0;
        CallsToSuccessIndex(m, t, rs[1..]);
        assert Calls(rs[1..]) == Calls(rs)[1..];
        assert Calls(rs)[..n][1..] == Calls(rs)[1..][..n - 1];
        AfterCons(m, s, Calls(rs)[..n]);
      }
    }
  }

  lemma {:induction false} RefusedWhileBack<R(!new)>(m: Meter<R>, s: State<R>, rs: seq<R>, left: nat)
    requires Regular(m) && Invariant(m, s) && s.status.Supported?
    requires Spaced(m, rs) && left <= |rs| && left <= Patience(s)
    requires forall i | 0 <= i < left :: m.stamp(rs[i]) < m.stamp(s.oldest)
    ensures CallsToSuccess(m, s, rs) >= left
    decreases left
  {
    if left > 0 {
      var (t, reply) := Step(m, s, Sampled(rs[0]));
      var c, d := m.calculate(rs[0], s.interim), m.calculate(rs[0], s.oldest);
      assert reply.code == ErrorRetry;
      StepKeepsInvariant(m, s, Sampled(rs[0]));
      var rest := rs[1..];
      assert forall i | 0 <= i < |rest| :: rest[i] == rs[i + 1];
      RefusedWhileBack(m, t, rest, left - 1);
    }
  }

  /** Five is the best bound: when the clock has jumped back far enough, exactly four calls are refused first. */
  lemma RecoveryBoundTight<R(!new)>(m: Meter<R>, s: State<R>, rs: seq<R>)
    requires Regular(m) && Invariant(m, s) && s.status.Supported? && s.negatives == 0
    requires Spaced(m, rs) && CpuKeepsUp(m, s, rs) && |rs| == 5
    requires m.stamp(rs[4]) < m.stamp(s.oldest)
    ensures CallsToSuccess(m, s, rs) == 4
  {
    RefusedWhileBack(m, s, rs, 4);
    BoundedRecovery(m, s, rs);
  }

  // ---------------------------------------------------------------------------------------
  // The object that holds both queries
  // ---------------------------------------------------------------------------------------

  /** `OMR_SysInfo`: the records of the system query and of the process query. */
  class SysInfo {
    var systemStatus: Status
    var systemNegatives: int
    var oldestSystem: SystemTime
    var interimSystem: SystemTime
    var processStatus: Status
    var processNegatives: int
    var oldestProcess: ProcessTime
    var interimProcess: ProcessTime

    function SystemState(): State<SystemTime>
      reads this
    {
      State(systemStatus, oldestSystem, interimSystem, systemNegatives)
    }

    function ProcessState(): State<ProcessTime>
      reads this
    {
      State(processStatus, oldestProcess, interimProcess, processNegatives)
    }

    constructor ()
      ensures Initial(SystemState()) && Initial(ProcessState())
    {
      systemStatus, systemNegatives := NoHistory, 0;
      oldestSystem, interimSystem := SystemTime(0, 0, 0), SystemTime(0, 0, 0);
      processStatus, processNegatives := NoHistory, 0;
      oldestProcess, interimProcess := ProcessTime(0, 0, 0, 0), ProcessTime(0, 0, 0, 0);
    }

    method GetSystemCpuLoad(sample: Sample<SystemTime>) returns (code: OmrError, written: Option<Double>)
      modifies this
      ensures (SystemState(), Reply(code, written)) == Step(SystemMeter, old(SystemState()), sample)
      ensures ProcessState() == old(ProcessState())
    {
      code, written := ErrorNone, None;
      if systemStatus == Supported || systemStatus == NoHistory {
        if sample.Refused? {
          systemStatus := sample.why;
          code := ErrorNotAvailable;
        } else if systemStatus == NoHistory {
          oldestSystem := sample.record;
          interimSystem := sample.record;
          systemStatus := Supported;
          code := ErrorRetry;
        } else {
          var newest := sample.record;
          var rc := CalculateSystemCpuLoad(newest, interimSystem);
          if rc.Computed? {
            written := Some(rc.load);
            oldestSystem := interimSystem;
            interimSystem := newest;
          } else {
            if rc.error == NegativeInterval {
              interimSystem := newest;
            }
            rc := CalculateSystemCpuLoad(newest, oldestSystem);
            if rc.Computed? {
              written := Some(rc.load);
              systemNegatives := 0;
            } else if rc.error == NegativeInterval {
              oldestSystem := newest;
              systemNegatives := 0;
              code := ErrorInternal;
            } else if rc.error == ElapsedTooSmall {
              systemNegatives := 0;
              code := ErrorRetry;
            } else {
              if systemNegatives == MAXIMUM_NEGATIVE_COUNT {
                oldestSystem := newest;
                systemNegatives := 0;
              } else {
                systemNegatives := systemNegatives + 1;
              }
              code := ErrorRetry;
            }
          }
        }
      } else {
        code := ErrorNotAvailable;
      }
    }

    method GetProcessCpuLoad(sample: Sample<ProcessTime>) returns (code: OmrError, written: Option<Double>)
      modifies this
      ensures (ProcessState(), Reply(code, written)) == Step(ProcessMeter, old(ProcessState()), sample)
      ensures SystemState() == old(SystemState())
    {
      code, written := ErrorNone, None;
      if processStatus == Supported || processStatus == NoHistory {
        if sample.Refused? {
          processStatus := sample.why;
          code := ErrorNotAvailable;
        } else if processStatus == NoHistory {
          oldestProcess := sample.record;
          interimProcess := sample.record;
          processStatus := Supported;
          code := ErrorRetry;
        } else {
          var newest := sample.record;
          var rc := CalculateProcessCpuLoad(newest, interimProcess);
          if rc.Computed? {
            written := Some(rc.load);
            oldestProcess := interimProcess;
            interimProcess := newest;
          } else {
            if rc.error == NegativeInterval {
              interimProcess := newest;
            }
            rc := CalculateProcessCpuLoad(newest, oldestProcess);
            if rc.Computed? {
              written := Some(rc.load);
              processNegatives := 0;
            } else if rc.error == NegativeInterval {
              oldestProcess := newest;
              processNegatives := 0;
              code := ErrorInternal;
            } else if rc.error == ElapsedTooSmall {
              processNegatives := 0;
              code := ErrorRetry;
            } else {
              if processNegatives == MAXIMUM_NEGATIVE_COUNT {
                oldestProcess := newest;
                processNegatives := 0;
              } else {
                processNegatives := processNegatives + 1;
              }
              code := ErrorRetry;
            }
          }
        }
      } else {
        code := ErrorNotAvailable;
      }
    }
  }

  // ---------------------------------------------------------------------------------------
  // The entry points
  // ---------------------------------------------------------------------------------------

  /**
   `omrtiGetSystemCpuLoad`. `attached` says that there is a thread, `argumentsOk` that it has a VM and that
   an output pointer was given, `monitorOk` whether the monitor could be entered. A call that is refused
   writes nothing and changes nothing; any other takes the step of the query.
   */
  method OmrtiGetSystemCpuLoad(attached: bool, argumentsOk: bool, info: SysInfo?, monitorOk: bool,
                               sample: Sample<SystemTime>)
    returns (code: OmrError, written: Option<Double>)
    modifies info
    ensures !attached ==> code == ThreadNotAttached
    ensures attached && !argumentsOk ==> code == ErrorIllegalArgument
    ensures attached && argumentsOk && info == null ==> code == ErrorNotAvailable
    ensures attached && argumentsOk && info != null && !monitorOk ==> code == ErrorInternal
    ensures !(attached && argumentsOk && info != null && monitorOk) ==>
              written == None && (info != null ==> unchanged(info))
    ensures attached && argumentsOk && info != null && monitorOk ==>
              && (info.SystemState(), Reply(code, written)) == Step(SystemMeter, old(info.SystemState()), sample)
              && info.ProcessState() == old(info.ProcessState())
  {
    written := None;
    if !attached {
      code := ThreadNotAttached;
    } else if !argumentsOk {
      code := ErrorIllegalArgument;
    } else if info == null {
      code := ErrorNotAvailable;
    } else if !monitorOk {
      code := ErrorInternal;
    } else {
      code, written := info.GetSystemCpuLoad(sample);
    }
  }

  /** `omrtiGetProcessCpuLoad`, in the same way. */
  method OmrtiGetProcessCpuLoad(attached: bool, argumentsOk: bool, info: SysInfo?, monitorOk: bool,
                                sample: Sample<ProcessTime>)
    returns (code: OmrError, written: Option<Double>)
    modifies info
    ensures !attached ==> code == ThreadNotAttached
    ensures attached && !argumentsOk ==> code == ErrorIllegalArgument
    ensures attached && argumentsOk && info == null ==> code == ErrorNotAvailable
    ensures attached && argumentsOk && info != null && !monitorOk ==> code == ErrorInternal
    ensures !(attached && argumentsOk && info != null && monitorOk) ==>
              written == None && (info != null ==> unchanged(info))
    ensures attached && argumentsOk && info != null && monitorOk ==>
              && (info.ProcessState(), Reply(code, written)) == Step(ProcessMeter, old(info.ProcessState()), sample)
              && info.SystemState() == old(info.SystemState())
  {
    written := None;
    if !attached {
      code := ThreadNotAttached;
    } else if !argumentsOk {
      code := ErrorIllegalArgument;
    } else if info == null {
      code := ErrorNotAvailable;
    } else if !monitorOk {
      code := ErrorInternal;
    } else {
      code, written := info.GetProcessCpuLoad(sample);
    }
  }
}
