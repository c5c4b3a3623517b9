/** `omrtiGetMemoryCategories` (omr/OMR_TI.cpp): the recording callback and the report as a whole. */
module CategoryReport {
  import opened MachineInts
  import opened CategoryForest
  import opened CategoryBuffer
  import opened CategoryWalk
  import opened Options

  datatype Code =
    | NoError
    | ThreadNotAttached
    | IllegalArgument
    | InternalError
    | OutOfNativeMemory
    | NotAvailable

  // ---------------------------------------------------------------------------------------
  // What a walk puts into the buffer
  // ---------------------------------------------------------------------------------------

  /** The slot of the parent of visit `k`: the last earlier visit of the parent's code. */
  function ParentSlot(vs: seq<Visit>, k: nat): (q: int)
    requires k < |vs|
    ensures -1 <= q < k
  {
    if vs[k].isRoot then -1 else LastVisit(vs[..k], vs[k].parentCode)
  }

  function ParentSlots(vs: seq<Visit>): (p: seq<int>)
    ensures |p| == |vs| && ParentFirst(p)
    ensures forall k | 0 <= k < |vs| :: p[k] == ParentSlot(vs, k)
  {
    seq(|vs|, k requires 0 <= k < |vs| => ParentSlot(vs, k))
  }

  /** The buffer element that visit `k` leaves behind. */
  function RecordOf(vs: seq<Visit>, k: nat): MemoryCategory
    requires k < |vs|
  {
    Zeroed.(name := vs[k].name,
            liveBytesShallow := Wrap64(vs[k].bytes),
            liveAllocationsShallow := Wrap64(vs[k].allocations),
            parent := ParentSlot(vs, k) + 1)
  }

  /** Live bytes or live allocations of a visit. */
  function Measure(v: Visit, allocations: bool): int {
    if allocations then v.allocations else v.bytes
  }

  function Measures(vs: seq<Visit>, allocations: bool): (v: seq<int>)
    ensures |v| == |vs| && forall k | 0 <= k < |vs| :: v[k] == Measure(vs[k], allocations)
  {
    seq(|vs|, k requires 0 <= k < |vs| => Measure(vs[k], allocations))
  }

  function Wrapped(v: seq<int>): (w: seq<int>)
    ensures |w| == |v| && forall k | 0 <= k < |v| :: w[k] == Wrap64(v[k])
  {
    seq(|v|, k requires 0 <= k < |v| => Wrap64(v[k]))
  }

  function ForestOf(vs: seq<Visit>): (f: Forest)
    ensures f.Valid() && |f.p| == |vs|
  {
    Forest(ParentSlots(vs), Wrapped(Measures(vs, false)), Wrapped(Measures(vs, true)))
  }

  lemma ParentSlotPrefix(vs: seq<Visit>, n: nat, k: nat)
    requires k < n <= |vs|
    ensures ParentSlot(vs[..n], k) == ParentSlot(vs, k)
  {
    assert vs[..n][..k] == vs[..k];
  }

  /** The written prefix is closed under parents: a non-root's parent is an earlier written slot. */
  lemma WrittenClosedUnderParents(vs: seq<Visit>, k: nat)
    requires ParentsVisited(vs) && k < |vs|
    ensures vs[k].isRoot <==> ParentSlot(vs, k) == -1
    ensures !vs[k].isRoot ==> vs[ParentSlot(vs, k)].code == vs[k].parentCode
  {
    assert ParentVisited(vs, k);
    if !vs[k].isRoot {
      assert vs[..k][ParentSlot(vs, k)] == vs[ParentSlot(vs, k)];
    }
  }

  // ---------------------------------------------------------------------------------------
  // The callback
  // ---------------------------------------------------------------------------------------

  /** The slot of the mapping array that belongs to `code`. */
  function SlotOf(vs: seq<Visit>, code: nat): nat {
    IndexFromCategoryCode(MappingSize(vs), code)
  }

  predicate MappedTo(vs: seq<Visit>, n: nat, mapping: seq<int>, code: nat)
    requires n <= |vs|
  {
    SlotOf(vs, code) < |mapping| && mapping[SlotOf(vs, code)] == LastVisit(vs[..n], code) + 1
  }

  /** The mapping array points every code seen so far to its latest slot. */
  predicate MappingTracks(vs: seq<Visit>, n: nat, mapping: seq<int>)
    requires n <= |vs|
  {
    forall k {:trigger MappedTo(vs, n, mapping, vs[k].code)} | 0 <= k < n :: MappedTo(vs, n, mapping, vs[k].code)
  }

  lemma LastVisitStep(vs: seq<Visit>, n: nat, code: nat)
    requires n < |vs|
    ensures LastVisit(vs[..n + 1], code) == if vs[n].code == code then n else LastVisit(vs[..n], code)
  {
    assert vs[..n + 1][..n] == vs[..n];
  }

  lemma MappingStep(vs: seq<Visit>, n: nat, mapping: seq<int>)
    requires GoodCodes(vs) && n < |vs| && |mapping| == MappingSize(vs) && MappingTracks(vs, n, mapping)
    ensures SlotOf(vs, vs[n].code) < |mapping|
    ensures MappingTracks(vs, n + 1, mapping[SlotOf(vs, vs[n].code) := n + 1])
  {
    IndexInjective(vs, n, n);
    var m := mapping[SlotOf(vs, vs[n].code) := n + 1];
    forall k | 0 <= k < n + 1
      ensures MappedTo(vs, n + 1, m, vs[k].code)
    {
      LastVisitStep(vs, n, vs[k].code);
      IndexInjective(vs, k, n);
      if k < n {
        assert MappedTo(vs, n, mapping, vs[k].code);
      }
    }
  }

  /** Looking up the parent finds its latest earlier slot, although the visit has just been entered itself. */
  lemma ParentLookup(vs: seq<Visit>, n: nat, mapping: seq<int>)
    requires GoodCodes(vs) && ParentsVisited(vs) && n < |vs| && !vs[n].isRoot
    requires |mapping| == MappingSize(vs) && MappingTracks(vs, n + 1, mapping)
    ensures SlotOf(vs, vs[n].parentCode) < |mapping|
    ensures mapping[SlotOf(vs, vs[n].parentCode)] == ParentSlot(vs, n) + 1
  {
    var q := ParentSlot(vs, n);
    assert ParentVisited(vs, n);
    WrittenClosedUnderParents(vs, n);
    LastVisitStep(vs, n, vs[n].parentCode);
    assert MappedTo(vs, n + 1, mapping, vs[q].code);
  }

  /** `omrtiGetMemoryCategoriesState` */
  class WalkState {
    const buffer: array<MemoryCategory>
    const mapping: array<int>
    const maxCategories: int
    const mappingSize: nat
    var written: nat
    var overflow: bool

    /** The first `written` visits of `vs` have been recorded. */
    ghost predicate Recorded(vs: seq<Visit>)
      reads this, buffer, mapping
    {
      && buffer as object != mapping && written <= |vs| && written <= buffer.Length
      && (maxCategories > 0 ==> maxCategories <= buffer.Length) && written <= Max0(maxCategories)
      && mappingSize == MappingSize(vs) == mapping.Length
      && MappingTracks(vs, written, mapping[..])
      && (forall k | 0 <= k < written :: buffer[k] == RecordOf(vs, k))
      && (forall k | written <= k < Max0(maxCategories) :: buffer[k] == Zeroed)
    }

    constructor (buffer: array<MemoryCategory>, maxCategories: int, mappingSize: nat)
      ensures this.buffer == buffer && this.maxCategories == maxCategories && this.mappingSize == mappingSize
      ensures written == 0 && !overflow && fresh(mapping) && mapping.Length == mappingSize
      ensures buffer as object != mapping
    {
      this.buffer, this.maxCategories, this.mappingSize := buffer, maxCategories, mappingSize;
      this.mapping := new int[mappingSize](_ => 0);
      written, overflow := 0, false;
    }

    /** `omrtiGetMemoryCategoriesCallback`; `vs` is the whole walk, of which `v` is the next visit. */
    method Record(v: Visit, ghost vs: seq<Visit>) returns (keepIterating: bool)
      requires GoodCodes(vs) && ParentsVisited(vs) && Recorded(vs)
      requires written < |vs| && v == vs[written]
      modifies this, buffer, mapping
      ensures Recorded(vs)
      ensures keepIterating <==> old(written) < maxCategories
      ensures written == old(written) + (if keepIterating then 1 else 0)
      ensures overflow == (old(overflow) || !keepIterating)
      ensures forall k | Max0(maxCategories) <= k < buffer.Length :: buffer[k] == old(buffer[k])
    {
      var index := IndexFromCategoryCode(mappingSize, v.code);
      assert index == SlotOf(vs, v.code);
      if written < maxCategories {
        ghost var n := written;
        MappingStep(vs, n, mapping[..]);
        mapping[index] := written + 1;
        assert mapping[..] == old(mapping[..])[index := n + 1];
        var category := buffer[written].(
          name := v.name,
          liveBytesShallow := Wrap64(v.bytes),
          liveAllocationsShallow := Wrap64(v.allocations));
        if v.isRoot {
          category := category.(parent := 0);
        } else {
          ParentLookup(vs, n, mapping[..]);
          var parentIndex := IndexFromCategoryCode(mappingSize, v.parentCode);
          category := category.(parent := mapping[parentIndex]);
        }
        buffer[written] := category;
        written := written + 1;
        keepIterating := true;
      } else {
        overflow := true;
        keepIterating := false;
      }
    }
  }

  function Max0(x: int): nat {
    if x < 0 then 0 else x
  }

  function Min(a: nat, b: nat): nat {
    if a < b then a else b
  }

  // ---------------------------------------------------------------------------------------
  // The report
  // ---------------------------------------------------------------------------------------

  /**
   Buffer `s` is the complete report of the visits `vs`: names and shallow values as visited, the
   parent, child and sibling links of the forest of `vs`, and the subtree totals in the deep counters.
   */
  predicate Reports(s: seq<MemoryCategory>, vs: seq<Visit>) {
    && |s| == |vs| && ForestOf(vs).Fits(s)
    && forall k | 0 <= k < |vs| :: s[k].name == vs[k].name && s[k] == ForestOf(vs).WithTotals(s[k], k)
  }

  /** From recorded slots to the report: the two passes over the buffer. */
  method LinkAndSum(buffer: array<MemoryCategory>, count: nat, ghost vs: seq<Visit>)
    requires count == |vs| <= buffer.Length
    requires forall k | 0 <= k < count :: buffer[k] == RecordOf(vs, k)
    modifies buffer
    ensures Reports(buffer[..count], vs)
    ensures forall k | count <= k < buffer.Length :: buffer[k] == old(buffer[k])
  {
    ghost var f := ForestOf(vs);
    assert Parents(buffer[..count]) == f.p;
    ghost var before := buffer[..count];
    FillInChildAndSiblingCategories(buffer, count);
    RecordedFits(before, buffer[..count], vs);
    ghost var linked := buffer[..count];
    FillInDeepCounters(buffer, count, f);
    assert forall k | 0 <= k < count :: buffer[k] == f.WithTotals(linked[k], k);
  }

  lemma RecordedFits(before: seq<MemoryCategory>, s: seq<MemoryCategory>, vs: seq<Visit>)
    requires |before| == |s| == |vs|
    requires forall k | 0 <= k < |vs| :: before[k] == RecordOf(vs, k)
    requires LinkedPrefix(ParentSlots(vs), before, s, |vs|)
    ensures ForestOf(vs).Fits(s)
    ensures forall k | 0 <= k < |vs| :: s[k].name == vs[k].name
  {
    var p := ParentSlots(vs);
    forall k | 0 <= k < |vs|
      ensures LinkedTo(p, s[k], k, |p|) && SameButLinks(before[k], s[k])
      ensures ForestOf(vs).Carries(s[k], k)
    {
      assert SlotLinked(p, before[k], s[k], k, |vs|);
    }
  }

  /**
   The whole query, for any walk `visits` in which parents come first. `wantWritten` and `wantTotal`
   say whether those output pointers were given, `allocOk` whether the mapping could be allocated.
   */
  method GetMemoryCategories(visits: seq<Visit>, attached: bool, maxCategories: int,
                             buffer: array?<MemoryCategory>, wantWritten: bool, wantTotal: bool, allocOk: bool)
    returns (rc: Code, written: Option<nat>, total: Option<nat>)
    requires GoodCodes(visits) && ParentsVisited(visits)
    requires buffer != null ==> Max0(maxCategories) <= buffer.Length
    modifies buffer
    ensures rc == ThreadNotAttached <==> !attached
    ensures rc == IllegalArgument
       <==> attached && (  (maxCategories > 0 && (buffer == null || !wantWritten))
                        || (buffer == null && !wantWritten && !wantTotal))
    ensures rc == InternalError <==> attached && rc != IllegalArgument && buffer != null && !allocOk
    ensures rc == OutOfNativeMemory <==>
              attached && rc != IllegalArgument && buffer != null && allocOk && |visits| > Max0(maxCategories)
    ensures rc != NotAvailable
    ensures rc == NoError || rc == OutOfNativeMemory ==>
              && total == (if wantTotal then Some(|visits|) else None)
              && written == (if !wantWritten then None
                             else if buffer == null then Some(0) else Some(Min(|visits|, Max0(maxCategories))))
    ensures rc != NoError && rc != OutOfNativeMemory ==> written == None && total == None
    ensures buffer != null && (rc == NoError || rc == OutOfNativeMemory) ==>
              var n := Min(|visits|, Max0(maxCategories));
              && Reports(buffer[..n], visits[..n])
              && (forall k | n <= k < Max0(maxCategories) :: buffer[k] == Zeroed)
              && (forall k | Max0(maxCategories) <= k < buffer.Length :: buffer[k] == old(buffer[k]))
    ensures buffer != null && rc != NoError && rc != OutOfNativeMemory ==> buffer[..] == old(buffer[..])
  {
    written, total := None, None;
    if !attached {
      return ThreadNotAttached, None, None;
    }
    if maxCategories > 0 && buffer == null {
      return IllegalArgument, None, None;
    }
    if maxCategories > 0 && !wantWritten {
      return IllegalArgument, None, None;
    }
    if buffer == null && !wantWritten && !wantTotal {
      return IllegalArgument, None, None;
    }
    rc := NotAvailable;
    var totalCategories := |visits|;
    var writtenCount := 0;
    if buffer != null {
      if !allocOk {
        return InternalError, None, None;
      }
      var overflow;
      writtenCount, overflow := WriteCategories(visits, maxCategories, buffer);
      rc := if overflow then OutOfNativeMemory else NoError;
    }
    if wantWritten {
      written := Some(writtenCount);
      if rc == NotAvailable {
        rc := NoError;
      }
    }
    if wantTotal {
      total := Some(totalCategories);
      if rc == NotAvailable {
        rc := NoError;
      }
    }
  }

  /** Zero the buffer, walk, link and sum. */
  method WriteCategories(visits: seq<Visit>, maxCategories: int, buffer: array<MemoryCategory>)
    returns (written: nat, overflow: bool)
    requires GoodCodes(visits) && ParentsVisited(visits) && Max0(maxCategories) <= buffer.Length
    modifies buffer
    ensures written == Min(|visits|, Max0(maxCategories))
    ensures overflow <==> |visits| > Max0(maxCategories)
    ensures Reports(buffer[..written], visits[..written])
    ensures forall k | written <= k < Max0(maxCategories) :: buffer[k] == Zeroed
    ensures forall k | Max0(maxCategories) <= k < buffer.Length :: buffer[k] == old(buffer[k])
  {
    var size := CalculateMappingSize(visits);
    var state := new WalkState(buffer, maxCategories, size);
    forall k | 0 <= k < Max0(maxCategories) {
      buffer[k] := Zeroed;
    }
    var keep, i := true, 0;
    while i < |visits| && keep
      invariant 0 <= i <= |visits|
      invariant state.Recorded(visits) && state.buffer == buffer && fresh(state) && fresh(state.mapping)
      invariant state.maxCategories == maxCategories
      invariant state.overflow == !keep
      invariant state.written == if keep then i else i - 1
      invariant !keep ==> i > 0 && Max0(maxCategories) == i - 1
      invariant forall k | Max0(maxCategories) <= k < buffer.Length :: buffer[k] == old(buffer[k])
    {
      keep := state.Record(visits[i], visits);
      i := i + 1;
    }
    written, overflow := state.written, state.overflow;
    forall k | 0 <= k < written
      ensures buffer[k] == RecordOf(visits[..written], k)
    {
      ParentSlotPrefix(visits, written, k);
    }
    LinkAndSum(buffer, written, visits[..written]);
  }
}
