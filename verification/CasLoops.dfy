/**
 The read/compare-and-swap loops of include_core/AtomicSupport.hpp on one shared cell of `w` bits.
 Any number of threads run `add`, `subtract`, `bitAnd`, `bitOr` and `set`; a run is an arbitrary
 interleaving of their invocations, reads, compare-and-swaps and returns.
 */
module CasLoops {
  import opened MachineInts

  datatype Op =
    | Add(operand: nat)
    | Subtract(operand: nat)
    | BitAnd(operand: nat)
    | BitOr(operand: nat)
    | Set(operand: nat)

  function And(x: nat, y: nat): nat {
    if x == 0 || y == 0 then 0 else 2 * And(x / 2, y / 2) + (x % 2) * (y % 2)
  }

  function Or(x: nat, y: nat): nat
    decreases x + y
  {
    if x == 0 then y else if y == 0 then x
    else 2 * Or(x / 2, y / 2) + (if x % 2 == 1 || y % 2 == 1 then 1 else 0)
  }

  /** The `newValue` a loop offers to the compare-and-swap after reading `x`. */
  function NewValue(w: nat, op: Op, x: nat): nat {
    match op
    case Add(a) => (x + a) % Pow2(w)
    case Subtract(a) => (x - a) % Pow2(w)
    case BitAnd(m) => And(x, m)
    case BitOr(m) => Or(x, m)
    case Set(v) => v
  }

  /** What the function returns once its loop has ended with `oldValue == x`. */
  function ReturnValue(w: nat, op: Op, x: nat): nat {
    match op
    case Add(a) => (x + a) % Pow2(w)
    case Subtract(a) => (x - a) % Pow2(w)
    case _ => x
  }

  /** Bit `k` of `x`. */
  predicate Bit(x: nat, k: nat) {
    if k == 0 then x % 2 == 1 else Bit(x / 2, k - 1)
  }

  lemma {:induction false} ZeroBits(k: nat)
    ensures !Bit(0, k)
  {
    if k > 0 {
      ZeroBits(k - 1);
    }
  }

  /** `And` and `Or` are the bitwise operations. */
  lemma {:induction false} BitwiseOperations(x: nat, y: nat, k: nat)
    ensures Bit(And(x, y), k) <==> Bit(x, k) && Bit(y, k)
    ensures Bit(Or(x, y), k) <==> Bit(x, k) || Bit(y, k)
    decreases k
  {
    ZeroBits(k);
    if x != 0 && y != 0 && k > 0 {
      BitwiseOperations(x / 2, y / 2, k - 1);
      assert And(x, y) / 2 == And(x / 2, y / 2);
      assert Or(x, y) / 2 == Or(x / 2, y / 2);
    }
  }

  lemma {:induction false} AndBounded(x: nat, y: nat)
    ensures And(x, y) <= y
  {
    if x != 0 && y != 0 {
      AndBounded(x / 2, y / 2);
      assert (x % 2) * (y % 2) <= y % 2;
    }
  }

  lemma {:induction false} OrBounded(w: nat, x: nat, y: nat)
    requires x < Pow2(w) && y < Pow2(w)
    ensures Or(x, y) < Pow2(w)
  {
    if w > 0 && x != 0 && y != 0 {
      OrBounded(w - 1, x / 2, y / 2);
    }
  }

  /** What an operation does to a cell of `w` bits, without reference to how the loop computes it. */
  ghost predicate Effect(w: nat, op: Op, before: nat, after: nat) {
    match op
    case Add(a) => after < Pow2(w) && (before + a - after) % Pow2(w) == 0
    case Subtract(a) => after < Pow2(w) && (before - a - after) % Pow2(w) == 0
    case BitAnd(m) => forall k: nat :: Bit(after, k) <==> Bit(before, k) && Bit(m, k)
    case BitOr(m) => forall k: nat :: Bit(after, k) <==> Bit(before, k) || Bit(m, k)
    case Set(v) => after == v
  }

  /** What a call returns: `add` and `subtract` the value they leave behind, the others the value they found. */
  predicate Returns(op: Op, before: nat, after: nat, result: nat) {
    result == if op.Add? || op.Subtract? then after else before
  }

  lemma ModDifference(x: int, m: int)
    requires m >= 1
    ensures 0 <= x % m < m && (x - x % m) % m == 0
  {
    assert x - x % m == (x / m) * m + 0;
    DivisionUnique(x - x % m, x / m, 0, m);
  }

  lemma NewValueEffect(w: nat, op: Op, x: nat)
    ensures Effect(w, op, x, NewValue(w, op, x))
    ensures Returns(op, x, NewValue(w, op, x), ReturnValue(w, op, x))
  {
    match op
    case Add(a) => ModDifference(x + a, Pow2(w));
    case Subtract(a) => ModDifference(x - a, Pow2(w));
    case BitAnd(m) => AllBits(x, m);
    case BitOr(m) => AllBits(x, m);
    case Set(_) =>
  }

  lemma AllBits(x: nat, y: nat)
    ensures forall k: nat :: Bit(And(x, y), k) <==> Bit(x, k) && Bit(y, k)
    ensures forall k: nat :: Bit(Or(x, y), k) <==> Bit(x, k) || Bit(y, k)
  {
    forall k: nat
      ensures Bit(And(x, y), k) <==> Bit(x, k) && Bit(y, k)
      ensures Bit(Or(x, y), k) <==> Bit(x, k) || Bit(y, k)
    {
      BitwiseOperations(x, y, k);
    }
  }

  lemma NewValueFits(w: nat, op: Op, x: nat)
    requires x < Pow2(w) && op.operand < Pow2(w)
    ensures NewValue(w, op, x) < Pow2(w)
  {
    AndBounded(x, op.operand);
    OrBounded(w, x, op.operand);
  }

  // ---------------------------------------------------------------------------------------
  // The interleaving
  // ---------------------------------------------------------------------------------------

  /**
   What the loops on a cell compute: the new value and the result as functions of the value read. The
   interleaving results below hold for every such pair of functions.
   */
  datatype Machine = Machine(newValue: (Op, nat) -> nat, returnValue: (Op, nat) -> nat, admits: Op -> bool)

  /** The operations on a cell of `w` bits. */
  function Word(w: nat): Machine {
    Machine((op, x) => NewValue(w, op, x), (op, x) => ReturnValue(w, op, x), (op: Op) => op.operand < Pow2(w))
  }

  /** Where a thread stands in its loop. `since` is the moment of the call. */
  datatype Phase =
    | Idle
    | Reading(op: Op, since: nat)
    | HasRead(op: Op, since: nat, oldValue: nat)
    | Done(op: Op, since: nat, oldValue: nat, entry: nat)

  datatype Event = Invoke(t: nat, op: Op) | Read(t: nat) | Cas(t: nat) | Return(t: nat)

  /** One successful compare-and-swap. */
  datatype Entry = Entry(op: Op, invokedAt: nat, casAt: nat)

  /** One completed call: which log entry it made, when it returned and what. */
  datatype Response = Response(entry: nat, op: Op, invokedAt: nat, returnedAt: nat, value: nat)

  datatype Config = Config(
    now: nat, cell: nat, threads: seq<Phase>, log: seq<Entry>, responses: seq<Response>, failures: nat)

  predicate Enabled(m: Machine, c: Config, e: Event) {
    && e.t < |c.threads|
    && var p := c.threads[e.t];
       match e
       case Invoke(_, op) => p.Idle? && m.admits(op)
       case Read(_) => p.Reading?
       case Cas(_) => p.HasRead?
       case Return(_) => p.Done?
  }

  function Step(m: Machine, c: Config, e: Event): Config
    requires Enabled(m, c, e)
  {
    var p := c.threads[e.t];
    var d := c.(now := c.now + 1);
    match e
    case Invoke(t, op) => d.(threads := c.threads[t := Reading(op, c.now)])
    case Read(t) => d.(threads := c.threads[t := HasRead(p.op, p.since, c.cell)])
    case Cas(t) =>
      if c.cell == p.oldValue then
        d.(cell := m.newValue(p.op, p.oldValue),
           threads := c.threads[t := Done(p.op, p.since, p.oldValue, |c.log|)],
           log := c.log + [Entry(p.op, p.since, c.now)])
      else
        d.(threads := c.threads[t := Reading(p.op, p.since)], failures := c.failures + 1)
    case Return(t) =>
      d.(threads := c.threads[t := Idle],
         responses := c.responses
           + [Response(p.entry, p.op, p.since, c.now, m.returnValue(p.op, p.oldValue))])
  }

  predicate Initial(c: Config) {
    && c.log == [] && c.responses == [] && c.failures == 0
    && forall t | 0 <= t < |c.threads| :: c.threads[t].Idle?
  }

  /** `cs` are the configurations that the events `es` lead through. */
  ghost predicate Run(m: Machine, cs: seq<Config>, es: seq<Event>) {
    && |cs| == |es| + 1
    && Initial(cs[0])
    && forall i | 0 <= i < |es| :: Enabled(m, cs[i], es[i]) && cs[i + 1] == Step(m, cs[i], es[i])
  }

  // ---------------------------------------------------------------------------------------
  // Linearizability
  // ---------------------------------------------------------------------------------------

  /** The cell after the logged operations have been executed one after the other. */
  function Replay(m: Machine, v: nat, log: seq<Entry>): nat
    decreases |log|
  {
    if log == [] then v
    else var n := |log| - 1; m.newValue(log[n].op, Replay(m, v, log[..n]))
  }

  /** A thread past its successful compare-and-swap remembers the value that the log had reached. */
  predicate DoneMatchesLog(m: Machine, v: nat, log: seq<Entry>, p: Phase) {
    p.Done? ==>
      && p.entry < |log| && log[p.entry].op == p.op && log[p.entry].invokedAt == p.since
      && Replay(m, v, log[..p.entry]) == p.oldValue
  }

  predicate ResponseMatchesLog(m: Machine, v: nat, log: seq<Entry>, r: Response) {
    && r.entry < |log| && log[r.entry].op == r.op && log[r.entry].invokedAt == r.invokedAt
    && log[r.entry].casAt < r.returnedAt
    && r.value == m.returnValue(r.op, Replay(m, v, log[..r.entry]))
  }

  predicate LogOrdered(now: nat, log: seq<Entry>) {
    && (forall i | 0 <= i < |log| :: log[i].invokedAt < log[i].casAt < now)
    && (forall i, j | 0 <= i < j < |log| :: log[i].casAt < log[j].casAt)
  }

  predicate ThreadOk(m: Machine, v: nat, now: nat, log: seq<Entry>, p: Phase) {
    && (!p.Idle? ==> p.since < now && m.admits(p.op))
    && DoneMatchesLog(m, v, log, p)
  }

  predicate Invariant(m: Machine, v: nat, c: Config) {
    && c.cell == Replay(m, v, c.log)
    && LogOrdered(c.now, c.log)
    && (forall t | 0 <= t < |c.threads| :: ThreadOk(m, v, c.now, c.log, c.threads[t]))
    && (forall i | 0 <= i < |c.responses| :: ResponseMatchesLog(m, v, c.log, c.responses[i]))
  }

  lemma LogPrefix(m: Machine, v: nat, log: seq<Entry>, e: Entry, k: nat)
    requires k <= |log|
    ensures Replay(m, v, (log + [e])[..k]) == Replay(m, v, log[..k])
  {
    assert (log + [e])[..k] == log[..k];
  }

  lemma LogOrderedAppend(now: nat, log: seq<Entry>, op: Op, since: nat)
    requires LogOrdered(now, log) && since < now
    ensures LogOrdered(now + 1, log + [Entry(op, since, now)])
  {
  }

  /** What the log says about a call is not disturbed by later entries. */
  lemma AppendKeepsThread(m: Machine, v: nat, now: nat, log: seq<Entry>, e: Entry, p: Phase)
    requires ThreadOk(m, v, now, log, p)
    ensures ThreadOk(m, v, now + 1, log + [e], p)
  {
    if p.Done? {
      LogPrefix(m, v, log, e, p.entry);
    }
  }

  lemma AppendKeepsResponse(m: Machine, v: nat, log: seq<Entry>, e: Entry, r: Response)
    requires ResponseMatchesLog(m, v, log, r)
    ensures ResponseMatchesLog(m, v, log + [e], r)
  {
    LogPrefix(m, v, log, e, r.entry);
  }

  lemma ReplayAppend(m: Machine, v: nat, log: seq<Entry>, e: Entry)
    ensures Replay(m, v, log + [e]) == m.newValue(e.op, Replay(m, v, log))
    ensures Replay(m, v, (log + [e])[..|log|]) == Replay(m, v, log)
  {
    assert (log + [e])[..|log|] == log;
  }

  lemma CasKeepsInvariant(m: Machine, v: nat, c: Config, t: nat)
    requires Invariant(m, v, c) && Enabled(m, c, Cas(t)) && c.cell == c.threads[t].oldValue
    ensures Invariant(m, v, Step(m, c, Cas(t)))
  {
    var p, d := c.threads[t], Step(m, c, Cas(t));
    var e := Entry(p.op, p.since, c.now);
    LogOrderedAppend(c.now, c.log, p.op, p.since);
    ReplayAppend(m, v, c.log, e);
    assert ThreadOk(m, v, c.now, c.log, p);
    forall u | 0 <= u < |d.threads|
      ensures ThreadOk(m, v, d.now, d.log, d.threads[u])
    {
      if u != t {
        AppendKeepsThread(m, v, c.now, c.log, e, c.threads[u]);
      }
    }
    forall i | 0 <= i < |d.responses|
      ensures ResponseMatchesLog(m, v, d.log, d.responses[i])
    {
      AppendKeepsResponse(m, v, c.log, e, c.responses[i]);
    }
  }

  lemma StepKeepsInvariant(m: Machine, v: nat, c: Config, e: Event)
    requires Invariant(m, v, c) && Enabled(m, c, e)
    ensures Invariant(m, v, Step(m, c, e))
  {
    if e.Cas? && c.cell == c.threads[e.t].oldValue {
      CasKeepsInvariant(m, v, c, e.t);
    } else {
      assert ThreadOk(m, v, c.now, c.log, c.threads[e.t]);
      var d := Step(m, c, e);
      forall u | 0 <= u < |d.threads|
        ensures ThreadOk(m, v, d.now, d.log, d.threads[u])
      {
        assert ThreadOk(m, v, c.now, c.log, c.threads[u]);
      }
    }
  }

  lemma {:induction false} RunKeepsInvariant(m: Machine, cs: seq<Config>, es: seq<Event>, i: nat)
    requires Run(m, cs, es) && i <= |es|
    ensures Invariant(m, cs[0].cell, cs[i])
  {
    if i > 0 {
      RunKeepsInvariant(m, cs, es, i - 1);
      StepKeepsInvariant(m, cs[0].cell, cs[i - 1], es[i - 1]);
    }
  }

  /**
   Linearizability. In every interleaving, at every moment, executing the operations one at a time in
   the order of their successful compare-and-swaps yields the value of the cell and every returned
   value, and a call that returned before another was invoked comes first in that order.
   */
  lemma Linearizable(m: Machine, cs: seq<Config>, es: seq<Event>, i: nat)
    requires Run(m, cs, es) && i <= |es|
    ensures
      var v, f := cs[0].cell, cs[i];
      && f.cell == Replay(m, v, f.log)
      && (forall r | r in f.responses ::
            && r.entry < |f.log| && f.log[r.entry].op == r.op
            && r.value == m.returnValue(r.op, Replay(m, v, f.log[..r.entry])))
      && (forall r, j | r in f.responses && 0 <= j < |f.log| && r.returnedAt < f.log[j].invokedAt ::
            r.entry < j)
  {
    RunKeepsInvariant(m, cs, es, i);
    var f := cs[i];
    forall r, j | r in f.responses && 0 <= j < |f.log| && r.returnedAt < f.log[j].invokedAt
      ensures r.entry < j
    {
      assert ResponseMatchesLog(m, cs[0].cell, f.log, r);
    }
  }

  /** The cell before and after entry `k` of a log. */
  lemma ReplayEffect(w: nat, v: nat, log: seq<Entry>, k: nat)
    requires k < |log|
    ensures Effect(w, log[k].op, Replay(Word(w), v, log[..k]), Replay(Word(w), v, log[..k + 1]))
  {
    assert log[..k + 1][..k] == log[..k];
    NewValueEffect(w, log[k].op, Replay(Word(w), v, log[..k]));
  }

  /**
   What the calls on a word do and return, in every interleaving and at every moment: each log entry has
   the effect of its operation on the cell as the entries before it left it, and each call returns the
   value of the cell right after its own entry (`add`, `subtract`) or right before it (the others).
   */
  lemma ReturnsOwnEffect(w: nat, cs: seq<Config>, es: seq<Event>, i: nat)
    requires Run(Word(w), cs, es) && i <= |es|
    ensures
      var v, f := cs[0].cell, cs[i];
      && (forall k | 0 <= k < |f.log| ::
            Effect(w, f.log[k].op, Replay(Word(w), v, f.log[..k]), Replay(Word(w), v, f.log[..k + 1])))
      && (forall r | r in f.responses ::
            && r.entry < |f.log| && f.log[r.entry].op == r.op
            && Returns(r.op, Replay(Word(w), v, f.log[..r.entry]), Replay(Word(w), v, f.log[..r.entry + 1]), r.value))
  {
    Linearizable(Word(w), cs, es, i);
    var v, f := cs[0].cell, cs[i];
    forall k | 0 <= k < |f.log|
      ensures Effect(w, f.log[k].op, Replay(Word(w), v, f.log[..k]), Replay(Word(w), v, f.log[..k + 1]))
    {
      ReplayEffect(w, v, f.log, k);
    }
    forall r | r in f.responses
      ensures Returns(r.op, Replay(Word(w), v, f.log[..r.entry]), Replay(Word(w), v, f.log[..r.entry + 1]), r.value)
    {
      assert f.log[..r.entry + 1][..r.entry] == f.log[..r.entry];
      NewValueEffect(w, r.op, Replay(Word(w), v, f.log[..r.entry]));
    }
  }

  /** No two calls share a log entry: every operation takes effect exactly once. */
  predicate EntriesDistinct(c: Config) {
    && (forall i, j | 0 <= i < j < |c.responses| :: c.responses[i].entry != c.responses[j].entry)
    && (forall s, t | 0 <= s < t < |c.threads| && c.threads[s].Done? && c.threads[t].Done? ::
          c.threads[s].entry != c.threads[t].entry)
    && (forall i, t | 0 <= i < |c.responses| && 0 <= t < |c.threads| && c.threads[t].Done? ::
          c.responses[i].entry != c.threads[t].entry)
  }

  /** The number of calls that have had their effect: returned, or about to return. */
  function DoneCount(threads: seq<Phase>): nat
    decreases |threads|
  {
    if threads == [] then 0
    else var n := |threads| - 1; DoneCount(threads[..n]) + (if threads[n].Done? then 1 else 0)
  }

  lemma {:induction false} DoneCountUpdate(threads: seq<Phase>, t: nat, p: Phase)
    requires t < |threads|
    ensures DoneCount(threads[t := p])
         == DoneCount(threads) + (if p.Done? then 1 else 0) - (if threads[t].Done? then 1 else 0)
    decreases |threads|
  {
    var n := |threads| - 1;
    if t == n {
      assert threads[t := p][..n] == threads[..n];
    } else {
      DoneCountUpdate(threads[..n], t, p);
      assert threads[t := p][..n] == threads[..n][t := p];
    }
  }

  lemma {:induction false} DoneCountZero(threads: seq<Phase>)
    requires forall t | 0 <= t < |threads| :: threads[t].Idle?
    ensures DoneCount(threads) == 0
    decreases |threads|
  {
    if threads != [] {
      DoneCountZero(threads[..|threads| - 1]);
    }
  }

  /**
   Each call appears in the linearization exactly once: distinct calls own distinct log entries, and
   the log has no other entries.
   */
  lemma StepKeepsDistinct(m: Machine, v: nat, c: Config, e: Event)
    requires Invariant(m, v, c) && EntriesDistinct(c) && Enabled(m, c, e)
    ensures EntriesDistinct(Step(m, c, e))
  {
    if e.Cas? && c.cell == c.threads[e.t].oldValue {
      assert forall t | 0 <= t < |c.threads| :: ThreadOk(m, v, c.now, c.log, c.threads[t]);
      assert forall i | 0 <= i < |c.responses| :: ResponseMatchesLog(m, v, c.log, c.responses[i]);
    }
  }

  lemma {:induction false} EffectExactlyOnce(m: Machine, cs: seq<Config>, es: seq<Event>, i: nat)
    requires Run(m, cs, es) && i <= |es|
    ensures EntriesDistinct(cs[i])
    ensures |cs[i].log| == |cs[i].responses| + DoneCount(cs[i].threads)
  {
    if i == 0 {
      DoneCountZero(cs[0].threads);
    } else {
      EffectExactlyOnce(m, cs, es, i - 1);
      RunKeepsInvariant(m, cs, es, i - 1);
      var c, e := cs[i - 1], es[i - 1];
      StepKeepsDistinct(m, cs[0].cell, c, e);
      DoneCountUpdate(c.threads, e.t, cs[i].threads[e.t]);
    }
  }

  lemma {:induction false} CellStaysWithinWord(w: nat, cs: seq<Config>, es: seq<Event>, i: nat)
    requires Run(Word(w), cs, es) && i <= |es| && cs[0].cell < Pow2(w)
    ensures cs[i].cell < Pow2(w)
  {
    if i > 0 {
      CellStaysWithinWord(w, cs, es, i - 1);
      RunKeepsInvariant(Word(w), cs, es, i - 1);
      var c, e := cs[i - 1], es[i - 1];
      assert Enabled(Word(w), c, e) && cs[i] == Step(Word(w), c, e);
      assert ThreadOk(Word(w), cs[0].cell, c.now, c.log, c.threads[e.t]);
      if e.Cas? && c.cell == c.threads[e.t].oldValue {
        NewValueFits(w, c.threads[e.t].op, c.cell);
      }
    }
  }

  // ---------------------------------------------------------------------------------------
  // Conservation
  // ---------------------------------------------------------------------------------------

  predicate OnlyAddends(log: seq<Entry>) {
    forall i | 0 <= i < |log| :: log[i].op.Add? || log[i].op.Subtract?
  }

  function Addend(op: Op): int {
    if op.Add? then op.operand else 0 - op.operand
  }

  function NetAddend(log: seq<Entry>): int
    decreases |log|
  {
    if log == [] then 0
    else var n := |log| - 1; NetAddend(log[..n]) + Addend(log[n].op)
  }

  lemma ModAdd(a: int, b: int, m: int)
    requires m >= 1
    ensures (a % m + b) % m == (a + b) % m
  {
    var x := a % m + b;
    var q, r := x / m, x % m;
    assert x == q * m + r;
    assert a == (a / m) * m + a % m;
    assert a + b == (a / m + q) * m + r;
    DivisionUnique(a + b, a / m + q, r, m);
  }

  lemma DivisionUnique(x: int, q: int, r: int, m: int)
    requires m >= 1 && 0 <= r < m && x == q * m + r
    ensures x % m == r
  {
    var d := x / m - q;
    assert x == (x / m) * m + x % m;
    assert d * m == r - x % m;
    assert d >= 1 ==> d * m >= m;
    assert d <= -1 ==> d * m <= -m;
  }

  lemma NewValueAddend(w: nat, op: Op, x: nat)
    requires op.Add? || op.Subtract?
    ensures NewValue(w, op, x) == (x + Addend(op)) % Pow2(w)
  {
  }

  lemma ReplayAddendStep(w: nat, op: Op, x: nat, total: int)
    requires op.Add? || op.Subtract?
    requires x == total % Pow2(w)
    ensures NewValue(w, op, x) == (total + Addend(op)) % Pow2(w)
  {
    NewValueAddend(w, op, x);
    ModAdd(total, Addend(op), Pow2(w));
  }

  lemma {:induction false} ReplayAddends(w: nat, v: nat, log: seq<Entry>)
    requires v < Pow2(w) && OnlyAddends(log)
    ensures Replay(Word(w), v, log) == (v + NetAddend(log)) % Pow2(w)
    decreases |log|
  {
    if log == [] {
      DivisionUnique(v, 0, v, Pow2(w));
    } else {
      var n := |log| - 1;
      ReplayAddends(w, v, log[..n]);
      ReplayAddendStep(w, log[n].op, Replay(Word(w), v, log[..n]), v + NetAddend(log[..n]));
    }
  }

  /** No lost update: when only `add` and `subtract` run, the cell holds the start value plus all addends. */
  lemma NoLostUpdates(w: nat, cs: seq<Config>, es: seq<Event>, i: nat)
    requires Run(Word(w), cs, es) && i <= |es| && OnlyAddends(cs[i].log) && cs[0].cell < Pow2(w)
    ensures cs[i].cell == (cs[0].cell + NetAddend(cs[i].log)) % Pow2(w)
  {
    Linearizable(Word(w), cs, es, i);
    ReplayAddends(w, cs[0].cell, cs[i].log);
  }

  // ---------------------------------------------------------------------------------------
  // Progress
  // ---------------------------------------------------------------------------------------

  predicate Stale(cell: nat, p: Phase) {
    p.HasRead? && p.oldValue != cell
  }

  function StaleCount(cell: nat, threads: seq<Phase>): nat
    decreases |threads|
  {
    if threads == [] then 0
    else var n := |threads| - 1; StaleCount(cell, threads[..n]) + (if Stale(cell, threads[n]) then 1 else 0)
  }

  lemma {:induction false} StaleCountUpdate(cell: nat, threads: seq<Phase>, t: nat, p: Phase)
    requires t < |threads|
    ensures StaleCount(cell, threads[t := p])
         == StaleCount(cell, threads) + (if Stale(cell, p) then 1 else 0) - (if Stale(cell, threads[t]) then 1 else 0)
    decreases |threads|
  {
    var n := |threads| - 1;
    if t == n {
      assert threads[t := p][..n] == threads[..n];
    } else {
      StaleCountUpdate(cell, threads[..n], t, p);
      assert threads[t := p][..n] == threads[..n][t := p];
    }
  }

  /** A thread that is not between its read and its compare-and-swap is not stale. */
  lemma {:induction false} StaleCountBound(cell: nat, threads: seq<Phase>)
    ensures StaleCount(cell, threads) <= |threads|
    ensures (exists t | 0 <= t < |threads| :: !threads[t].HasRead?) ==> StaleCount(cell, threads) < |threads|
    ensures (forall t | 0 <= t < |threads| :: !threads[t].HasRead?) ==> StaleCount(cell, threads) == 0
    decreases |threads|
  {
    if threads != [] {
      var n := |threads| - 1;
      StaleCountBound(cell, threads[..n]);
      if t :| 0 <= t < |threads| && !threads[t].HasRead? {
        if t < n {
          assert !threads[..n][t].HasRead?;
        }
      }
    }
  }

  /** What a step may do to `failures + stale threads`. */
  lemma StepPotential(m: Machine, c: Config, e: Event)
    requires Enabled(m, c, e)
    ensures
      var d := Step(m, c, e);
      && |d.threads| == |c.threads| && |c.log| <= |d.log| <= |c.log| + 1
      && (|d.log| == |c.log| ==>
            d.failures + StaleCount(d.cell, d.threads) <= c.failures + StaleCount(c.cell, c.threads))
      && (|d.log| > |c.log| ==>
            d.failures == c.failures && StaleCount(d.cell, d.threads) <= |c.threads| - 1)
  {
    var d := Step(m, c, e);
    if |d.log| == |c.log| {
      StaleCountUpdate(c.cell, c.threads, e.t, d.threads[e.t]);
    } else {
      assert !d.threads[e.t].HasRead?;
      StaleCountBound(d.cell, d.threads);
    }
  }

  lemma OneMoreSuccess(k: nat, successes: nat)
    ensures k * (successes + 1) == k * successes + k
  {
  }

  /** At most N-1 failed attempts per successful one, at every moment of every run of N threads. */
  lemma {:induction false} FailuresBounded(m: Machine, cs: seq<Config>, es: seq<Event>, i: nat)
    requires Run(m, cs, es) && i <= |es| && |cs[0].threads| >= 1
    ensures |cs[i].threads| == |cs[0].threads|
    ensures cs[i].failures + StaleCount(cs[i].cell, cs[i].threads) <= (|cs[0].threads| - 1) * |cs[i].log|
  {
    if i == 0 {
      StaleCountBound(cs[0].cell, cs[0].threads);
    } else {
      FailuresBounded(m, cs, es, i - 1);
      StepPotential(m, cs[i - 1], es[i - 1]);
      OneMoreSuccess(|cs[0].threads| - 1, |cs[i - 1].log|);
    }
  }

  /** The event is a successful compare-and-swap of a thread other than `t` that changes the cell. */
  predicate ChangesCell(m: Machine, c: Config, e: Event, t: nat)
    requires Enabled(m, c, e)
  {
    e.Cas? && e.t != t && c.cell == c.threads[e.t].oldValue && Step(m, c, e).cell != c.cell
  }

  /**
   Why an attempt fails: if `t` reads at event `i`, reaches its compare-and-swap at event `j` without
   having moved in between, and that fails, then another thread changed the cell in between.
   */
  lemma FailureHasCause(m: Machine, cs: seq<Config>, es: seq<Event>, t: nat, i: nat, j: nat)
    requires Run(m, cs, es) && i < j < |es| && es[i] == Read(t) && es[j] == Cas(t)
    requires forall k | i < k < j :: es[k].t != t
    requires cs[j + 1].failures > cs[j].failures
    ensures exists k | i < k < j :: ChangesCell(m, cs[k], es[k], t)
  {
    assert Enabled(m, cs[j], es[j]) && cs[j + 1] == Step(m, cs[j], es[j]);
    if forall k | i < k < j :: !ChangesCell(m, cs[k], es[k], t) {
      NothingChanged(m, cs, es, t, i, j);
    }
  }

  lemma {:induction false} NothingChanged(m: Machine, cs: seq<Config>, es: seq<Event>, t: nat, i: nat, j: nat)
    requires Run(m, cs, es) && i < j <= |es| && es[i] == Read(t)
    requires forall k | i < k < j :: es[k].t != t && !ChangesCell(m, cs[k], es[k], t)
    ensures t < |cs[j].threads| && cs[j].threads[t].HasRead? && cs[j].threads[t].oldValue == cs[j].cell
  {
    assert Enabled(m, cs[j - 1], es[j - 1]) && cs[j] == Step(m, cs[j - 1], es[j - 1]);
    if j > i + 1 {
      NothingChanged(m, cs, es, t, i, j - 1);
    }
  }

  // ---------------------------------------------------------------------------------------
  // The loop of one thread
  // ---------------------------------------------------------------------------------------

  /** The shared word. */
  class Cell {
    var value: nat

    constructor (v: nat)
      ensures value == v
    {
      value := v;
    }

    /** `lockCompareExchange`: returns the value found, stores only when it was the expected one. */
    method CompareExchange(expected: nat, newValue: nat) returns (found: nat)
      modifies this
      ensures found == old(value)
      ensures value == if old(value) == expected then newValue else old(value)
    {
      found := value;
      if found == expected {
        value := newValue;
      }
    }

    /**
     The retry loop as one thread executes it, among others: `others[k]` is what they have left in the
     cell when attempt `k` reaches its compare-and-swap, and then when the loop reads again; after the
     last of them nobody interferes. The loop ends, and its one update is applied to the value read by
     the successful attempt: the first whose compare-and-swap found the cell as it had been read.
     */
    method RetryLoop(w: nat, op: Op, others: seq<(nat, nat)>) returns (result: nat, ghost attempt: nat)
      modifies this
      ensures attempt <= |others|
      ensures forall k | 0 <= k < attempt :: others[k].0 != ReadBy(old(value), others, k)
      ensures attempt < |others| ==> others[attempt].0 == ReadBy(old(value), others, attempt)
      ensures value == NewValue(w, op, ReadBy(old(value), others, attempt))
      ensures Effect(w, op, ReadBy(old(value), others, attempt), value)
      ensures Returns(op, ReadBy(old(value), others, attempt), value, result)
    {
      var oldValue := value;
      var i := 0;
      while true
        invariant 0 <= i <= |others|
        invariant value == oldValue == ReadBy(old(value), others, i)
        invariant forall k | 0 <= k < i :: others[k].0 != ReadBy(old(value), others, k)
        decreases |others| - i
      {
        if i < |others| {
          value := others[i].0;
        }
        var found := CompareExchange(oldValue, NewValue(w, op, oldValue));
        if found == oldValue {
          break;
        }
        value := others[i].1;
        oldValue := value;
        i := i + 1;
      }
      attempt := i;
      result := ReturnValue(w, op, oldValue);
      NewValueEffect(w, op, oldValue);
    }
  }

  /** The value that attempt `k` has read. */
  function ReadBy(start: nat, others: seq<(nat, nat)>, k: nat): nat
    requires k <= |others|
  {
    if k == 0 then start else others[k - 1].1
  }
}
