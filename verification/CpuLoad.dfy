/**
 The arithmetic of the CPU-load queries of the tooling interface (omr/OMR_TI.cpp): intervals between
 time stamps, the two load calculations and what they have in common.
 */
module CpuLoad {
  import opened MachineInts
  import opened Options

  const MINIMUM_INTERVAL: int := 1_000_000
  const MAXIMUM_NEGATIVE_COUNT: int := 3

  /** A `double` without rounding: OMR_MIN and division by zero still behave as in C. */
  datatype Double = Finite(value: real) | PosInf | NegInf | NaN

  datatype OmrError =
    | ErrorNone
    | ErrorRetry
    | ErrorInternal
    | ErrorNotAvailable
    | ErrorIllegalArgument
    | ThreadNotAttached

  datatype CalcError = ElapsedNegative | ElapsedTooSmall | NegativeInterval

  /** Result of one load calculation; `*cpuLoad` is written exactly in the `Computed` case. */
  datatype Calc = Computed(load: Double) | Failed(error: CalcError)

  datatype SystemTime = SystemTime(timestamp: int, cpuTime: int, cpus: int)

  datatype ProcessTime = ProcessTime(timestamp: int, systemTime: int, userTime: int, cpus: int)

  /** `(uint64_t)end - (uint64_t)start`, read back as an `int64_t`. */
  function ComputeTimeInterval(end: int, start: int): (d: int)
    ensures Int64(d)
  {
    var interval := ((end % TWO64) - (start % TWO64)) % TWO64;
    if interval < TWO63 then interval else interval - TWO64
  }

  /** Division of two int64 values converted to `double`. */
  function Quotient(numerator: int, denominator: int): Double {
    if denominator != 0 then Finite(numerator as real / denominator as real)
    else if numerator > 0 then PosInf
    else if numerator < 0 then NegInf
    else NaN
  }

  /** `OMR_MIN(x, 1.0)`: the comparison is false for NaN and for +infinity. */
  function MinOne(x: Double): Double {
    match x
    case Finite(v) => if v < 1.0 then x else Finite(1.0)
    case NegInf => x
    case _ => Finite(1.0)
  }

  function CalculateSystemCpuLoad(end: SystemTime, start: SystemTime): Calc {
    var delta := ComputeTimeInterval(end.timestamp, start.timestamp);
    if delta < 0 then Failed(ElapsedNegative)
    else if delta < MINIMUM_INTERVAL then Failed(ElapsedTooSmall)
    else if end.cpuTime < start.cpuTime then Failed(NegativeInterval)
    else
      var cpuDelta := Wrap64(end.cpuTime - start.cpuTime);
      Computed(MinOne(Quotient(cpuDelta, Wrap64(end.cpus * delta))))
  }

  function CalculateProcessCpuLoad(end: ProcessTime, start: ProcessTime): Calc {
    var delta := ComputeTimeInterval(end.timestamp, start.timestamp);
    if delta < 0 then Failed(ElapsedNegative)
    else if delta < MINIMUM_INTERVAL then Failed(ElapsedTooSmall)
    else if end.userTime < start.userTime then Failed(NegativeInterval)
    else
      var systemDelta := Wrap64(end.systemTime - start.systemTime);
      var userDelta := Wrap64(end.userTime - start.userTime);
      var processDelta := Wrap64(systemDelta + userDelta);
      if processDelta < systemDelta then Computed(Finite(1.0))
      else Computed(MinOne(Quotient(processDelta, Wrap64(end.cpus * delta))))
  }

  // ---------------------------------------------------------------------------------------
  // What the two calculations have in common
  // ---------------------------------------------------------------------------------------

  /** How a query looks at its records: their time stamp, whether CPU time did not fall, the load. */
  datatype Meter<!R> = Meter(stamp: R -> int, keepsUp: (R, R) -> bool, calculate: (R, R) -> Calc)

  const SystemMeter: Meter<SystemTime> :=
    Meter((r: SystemTime) => r.timestamp,
          (e: SystemTime, s: SystemTime) => e.cpuTime >= s.cpuTime,
          (e, s) => CalculateSystemCpuLoad(e, s))

  const ProcessMeter: Meter<ProcessTime> :=
    Meter((r: ProcessTime) => r.timestamp,
          (e: ProcessTime, s: ProcessTime) => e.userTime >= s.userTime,
          (e, s) => CalculateProcessCpuLoad(e, s))

  /** A stamp the platform hands out: a non-negative int64. */
  predicate GoodStamp(t: int) {
    0 <= t < TWO63
  }

  /** The interval from `s` to `e` yields a load. */
  predicate Qualifies<R>(m: Meter<R>, e: R, s: R) {
    m.stamp(e) - m.stamp(s) >= MINIMUM_INTERVAL && m.keepsUp(e, s)
  }

  /** On good stamps, `calculate` is decided by the plain difference of the stamps. */
  ghost predicate Regular<R(!new)>(m: Meter<R>) {
    forall e: R, s: R {:trigger m.calculate(e, s)} | GoodStamp(m.stamp(e)) && GoodStamp(m.stamp(s)) ::
      var d := m.stamp(e) - m.stamp(s);
      var c := m.calculate(e, s);
      && (c == Failed(ElapsedNegative) <==> d < 0)
      && (c == Failed(ElapsedTooSmall) <==> 0 <= d < MINIMUM_INTERVAL)
      && (c == Failed(NegativeInterval) <==> d >= MINIMUM_INTERVAL && !m.keepsUp(e, s))
      && (c.Computed? <==> Qualifies(m, e, s))
  }

  lemma IntervalExact(end: int, start: int)
    requires GoodStamp(end) && GoodStamp(start)
    ensures ComputeTimeInterval(end, start) == end - start
  {
  }

  lemma IntervalCongruent(end: int, start: int)
    ensures (end - start - ComputeTimeInterval(end, start)) % TWO64 == 0
  {
    var e, s := end % TWO64, start % TWO64;
    assert end == e + (end / TWO64) * TWO64;
    assert start == s + (start / TWO64) * TWO64;
    var i := (e - s) % TWO64;
    assert i == e - s || i == e - s + TWO64;
  }

  /**
   The interval survives a wrap of the timer: it is `d` exactly when `end` is `start + d`
   modulo 2^64, and every forward distance below 2^63 is returned unchanged.
   */
  lemma IntervalModular(end: int, start: int, d: int)
    requires Int64(end) && Int64(start) && Int64(d)
    ensures ComputeTimeInterval(end, start) == d <==> (end - start - d) % TWO64 == 0
    ensures end == Wrap64(start + d) ==> ComputeTimeInterval(end, start) == d
  {
    var r := ComputeTimeInterval(end, start);
    IntervalCongruent(end, start);
    if (end - start - d) % TWO64 == 0 {
      var k, j := (end - start - r) / TWO64, (end - start - d) / TWO64;
      assert r - d == (j - k) * TWO64;
    }
    if end == Wrap64(start + d) {
      assert (start + d - end) % TWO64 == 0;
    }
  }

  lemma SystemMeterRegular()
    ensures Regular(SystemMeter)
  {
    forall e: SystemTime, s: SystemTime | GoodStamp(e.timestamp) && GoodStamp(s.timestamp)
      ensures ComputeTimeInterval(e.timestamp, s.timestamp) == e.timestamp - s.timestamp
    {
      IntervalExact(e.timestamp, s.timestamp);
    }
  }

  lemma ProcessMeterRegular()
    ensures Regular(ProcessMeter)
  {
    forall e: ProcessTime, s: ProcessTime | GoodStamp(e.timestamp) && GoodStamp(s.timestamp)
      ensures ComputeTimeInterval(e.timestamp, s.timestamp) == e.timestamp - s.timestamp
    {
      IntervalExact(e.timestamp, s.timestamp);
    }
  }

  // ---------------------------------------------------------------------------------------
  // Range of the reported load
  // ---------------------------------------------------------------------------------------

  predicate InUnitInterval(d: Double) {
    d.Finite? && 0.0 <= d.value <= 1.0
  }

  /** A quotient with a positive denominator, compared with 0 and with 1. */
  lemma QuotientBound(num: int, den: int)
    requires den > 0
    ensures (num as real / den as real >= 0.0) <==> num >= 0
    ensures (num as real / den as real >= 1.0) <==> num >= den
  {
    var n, d := num as real, den as real;
    var q := n / d;
    assert q * d == n;
    assert q >= 0.0 ==> q * d >= 0.0;
    assert q < 0.0 ==> q * d < 0.0;
    assert q >= 1.0 ==> (q - 1.0) * d >= 0.0;
    assert q < 1.0 ==> (q - 1.0) * d < 0.0;
  }

  /** The capped quotient lies in [0,1] exactly when numerator and denominator do not disagree in sign. */
  lemma CappedQuotientRange(num: int, den: int)
    ensures InUnitInterval(MinOne(Quotient(num, den)))
       <==> num == 0 || (num > 0 && den >= 0) || (num < 0 && den < 0)
  {
    if den > 0 {
      QuotientBound(num, den);
    } else if den < 0 {
      QuotientBound(-num, -den);
      var n, d := num as real, den as real;
      assert n / d == (-n) / (-d) by {
        var q := n / d;
        assert q * d == n;
        assert q * (-d) == -n;
      }
    }
  }

  /**
   System query: with non-negative CPU times the reported load is in [0,1] exactly when no CPU
   time passed or the int64 product `numberOfCpus * timestampDelta` did not come out negative.
   */
  lemma SystemLoadRange(e: SystemTime, s: SystemTime)
    requires GoodStamp(e.timestamp) && GoodStamp(s.timestamp)
    requires GoodStamp(e.cpuTime) && GoodStamp(s.cpuTime)
    requires CalculateSystemCpuLoad(e, s).Computed?
    ensures InUnitInterval(CalculateSystemCpuLoad(e, s).load)
       <==> e.cpuTime == s.cpuTime || Wrap64(e.cpus * (e.timestamp - s.timestamp)) >= 0
  {
    IntervalExact(e.timestamp, s.timestamp);
    CappedQuotientRange(e.cpuTime - s.cpuTime, Wrap64(e.cpus * (e.timestamp - s.timestamp)));
  }

  /**
   `load` is `busy / capacity`, but at most 1: stated by multiplication, for every sign of the two. Without
   capacity, any non-negative busy time counts as full load, and a negative one as minus infinity.
   */
  predicate CappedShare(load: Double, busy: int, capacity: int) {
    if capacity > 0 then
      load.Finite? && (if busy >= capacity then load.value == 1.0 else load.value * capacity as real == busy as real)
    else if capacity < 0 then
      load.Finite? && (if busy <= capacity then load.value == 1.0 else load.value * capacity as real == busy as real)
    else load == if busy >= 0 then Finite(1.0) else NegInf
  }

  lemma CappedQuotientValue(num: int, den: int)
    ensures CappedShare(MinOne(Quotient(num, den)), num, den)
  {
    if den > 0 {
      QuotientBound(num, den);
    } else if den < 0 {
      QuotientBound(-num, -den);
      var n, d := num as real, den as real;
      assert n / d == (-n) / (-d) by {
        var q := n / d;
        assert q * d == n;
        assert q * (-d) == -n;
      }
    }
  }

  /** The system load is the busy share of the capacity, which is the int64 product of CPUs and interval. */
  lemma SystemLoadValue(e: SystemTime, s: SystemTime)
    requires GoodStamp(e.timestamp) && GoodStamp(s.timestamp)
    requires GoodStamp(e.cpuTime) && GoodStamp(s.cpuTime)
    requires CalculateSystemCpuLoad(e, s).Computed?
    ensures CappedShare(CalculateSystemCpuLoad(e, s).load,
                        e.cpuTime - s.cpuTime, Wrap64(e.cpus * (e.timestamp - s.timestamp)))
    ensures e.cpus >= 1 && e.cpus * (e.timestamp - s.timestamp) < TWO63 ==>
              InUnitInterval(CalculateSystemCpuLoad(e, s).load)
  {
    IntervalExact(e.timestamp, s.timestamp);
    if e.cpus >= 1 {
      PositiveProduct(e.cpus, e.timestamp - s.timestamp);
    }
    SystemLoadRange(e, s);
    CappedQuotientValue(e.cpuTime - s.cpuTime, Wrap64(e.cpus * (e.timestamp - s.timestamp)));
  }

  /**
   The process load is the same share of the system and user time together. A sum that leaves int64 counts
   as full load.
   */
  lemma ProcessLoadValue(e: ProcessTime, s: ProcessTime)
    requires GoodStamp(e.timestamp) && GoodStamp(s.timestamp)
    requires GoodStamp(e.systemTime) && GoodStamp(s.systemTime)
    requires GoodStamp(e.userTime) && GoodStamp(s.userTime)
    requires CalculateProcessCpuLoad(e, s).Computed?
    ensures
      var load := CalculateProcessCpuLoad(e, s).load;
      var busy := (e.systemTime - s.systemTime) + (e.userTime - s.userTime);
      var capacity := Wrap64(e.cpus * (e.timestamp - s.timestamp));
      if busy >= TWO63 then load == Finite(1.0) else CappedShare(load, busy, capacity)
  {
    IntervalExact(e.timestamp, s.timestamp);
    var systemDelta, userDelta := e.systemTime - s.systemTime, e.userTime - s.userTime;
    OverflowTestExact(systemDelta, userDelta);
    CappedQuotientValue(Wrap64(systemDelta + userDelta), Wrap64(e.cpus * (e.timestamp - s.timestamp)));
  }

  lemma PositiveProduct(a: int, b: int)
    requires a >= 1 && b >= 1
    ensures a * b >= 1
  {
  }

  /** The wrapped-sum test fires exactly when the sum of the two deltas leaves int64. */
  lemma OverflowTestExact(systemDelta: int, userDelta: int)
    requires Int64(systemDelta) && 0 <= userDelta < TWO63
    ensures Wrap64(systemDelta + userDelta) < systemDelta <==> systemDelta + userDelta >= TWO63
  {
  }

  /**
   Process query, at least one CPU and no overflow in the product: the load is in [0,1] exactly when
   the total (system plus user) CPU time of the process did not fall.
   */
  lemma ProcessLoadRange(e: ProcessTime, s: ProcessTime)
    requires GoodStamp(e.timestamp) && GoodStamp(s.timestamp)
    requires GoodStamp(e.systemTime) && GoodStamp(s.systemTime)
    requires GoodStamp(e.userTime) && GoodStamp(s.userTime)
    requires CalculateProcessCpuLoad(e, s).Computed?
    requires e.cpus >= 1 && e.cpus * (e.timestamp - s.timestamp) < TWO63
    ensures InUnitInterval(CalculateProcessCpuLoad(e, s).load)
       <==> s.systemTime + s.userTime <= e.systemTime + e.userTime
  {
    IntervalExact(e.timestamp, s.timestamp);
    var systemDelta, userDelta := e.systemTime - s.systemTime, e.userTime - s.userTime;
    OverflowTestExact(systemDelta, userDelta);
    PositiveProduct(e.cpus, e.timestamp - s.timestamp);
    CappedQuotientRange(Wrap64(systemDelta + userDelta), e.cpus * (e.timestamp - s.timestamp));
  }

  /** The calculation only compares user times, so a falling system time yields a negative load. */
  lemma ProcessLoadCanBeNegative()
    ensures
      var s := ProcessTime(0, 5_000_000, 0, 1);
      var e := ProcessTime(1_000_000, 0, 0, 1);
      CalculateProcessCpuLoad(e, s) == Computed(Finite(-5.0))
  {
    IntervalExact(1_000_000, 0);
    assert -5_000_000 as real / 1_000_000 as real == -5.0;
  }
}
