/**
 The report compared with the category tree itself: when the buffer is large enough, the deep
 counters of the slot in which a category was written are the totals of that category's own tree.
 */
module CategoryTotals {
  import opened MachineInts
  import opened CategoryForest
  import opened CategoryBuffer
  import opened CategoryWalk
  import opened CategoryReport

  /** Live bytes (or allocations) of a category and everything below it. */
  function TreeTotal(t: Category, allocations: bool): int
    decreases t, 0
  {
    Own(t, allocations) + AllTotal(t.children, allocations)
  }

  function Own(t: Category, allocations: bool): int {
    if allocations then t.allocations else t.bytes
  }

  function AllTotal(ts: seq<Category>, allocations: bool): int
    decreases ts
  {
    if ts == [] then 0 else TreeTotal(ts[0], allocations) + AllTotal(ts[1..], allocations)
  }

  /** Category `t`, written from slot `b` on, has its total in slot `b`, and so has everything below it. */
  predicate TreeMatches(t: Category, b: nat, sums: seq<int>, allocations: bool)
    decreases t, 0
  {
    b < |sums| && sums[b] == TreeTotal(t, allocations) && AllMatch(t.children, b + 1, sums, allocations)
  }

  predicate AllMatch(ts: seq<Category>, b: nat, sums: seq<int>, allocations: bool)
    decreases ts
  {
    ts == [] ||
    (TreeMatches(ts[0], b, sums, allocations) && AllMatch(ts[1..], b + TreeCount(ts[0]), sums, allocations))
  }

  // ---------------------------------------------------------------------------------------
  // Shape of the visit list
  // ---------------------------------------------------------------------------------------

  function VisitSum(vs: seq<Visit>, allocations: bool): int
    decreases |vs|
  {
    if vs == [] then 0
    else VisitSum(vs[..|vs| - 1], allocations) + Measure(vs[|vs| - 1], allocations)
  }

  lemma {:induction false} VisitSumAppend(a: seq<Visit>, b: seq<Visit>, allocations: bool)
    ensures VisitSum(a + b, allocations) == VisitSum(a, allocations) + VisitSum(b, allocations)
    decreases |b|
  {
    if b == [] {
      assert a + b == a;
    } else {
      var n := |b| - 1;
      VisitSumAppend(a, b[..n], allocations);
      assert (a + b)[..|a| + n] == a + b[..n];
    }
  }

  lemma {:induction false} TreeVisitSum(t: Category, isRoot: bool, up: nat, allocations: bool)
    ensures VisitSum(VisitTree(t, isRoot, up), allocations) == TreeTotal(t, allocations)
    decreases t, 0
  {
    AllVisitSum(t.children, false, t.code, allocations);
    var v := Visit(t.code, t.name, t.bytes, t.allocations, isRoot, up);
    assert [v][..0] == [];
    VisitSumAppend([v], VisitAll(t.children, false, t.code), allocations);
  }

  lemma {:induction false} AllVisitSum(ts: seq<Category>, isRoot: bool, up: nat, allocations: bool)
    ensures VisitSum(VisitAll(ts, isRoot, up), allocations) == AllTotal(ts, allocations)
    decreases ts
  {
    if ts != [] {
      TreeVisitSum(ts[0], isRoot, up, allocations);
      AllVisitSum(ts[1..], isRoot, up, allocations);
      VisitSumAppend(VisitTree(ts[0], isRoot, up), VisitAll(ts[1..], isRoot, up), allocations);
    }
  }

  // ---------------------------------------------------------------------------------------
  // Subtrees are intervals of slots
  // ---------------------------------------------------------------------------------------

  /** The slots from `b` up to `e` hang together below `b` and nothing else hangs below them. */
  predicate Interval(p: seq<int>, b: nat, e: nat) {
    && ParentFirst(p) && b < e <= |p|
    && (forall k | b < k < e :: b <= p[k])
    && (forall k | e <= k < |p| :: p[k] < b || e <= p[k])
  }

  lemma {:induction false} IntervalIsSubtree(p: seq<int>, b: nat, e: nat, j: int)
    requires Interval(p, b, e) && -1 <= j < |p|
    ensures Below(p, j, b) <==> b <= j < e
    decreases j
  {
    if j >= 0 && j != b {
      IntervalIsSubtree(p, b, e, p[j]);
    }
  }

  lemma VisitSumStep(vs: seq<Visit>, b: nat, n: nat, allocations: bool)
    requires b < n <= |vs|
    ensures VisitSum(vs[b..n], allocations) == VisitSum(vs[b..n - 1], allocations) + Measure(vs[n - 1], allocations)
  {
    assert vs[b..n][..n - 1 - b] == vs[b..n - 1];
  }

  lemma {:induction false} IntervalSum(vs: seq<Visit>, p: seq<int>, b: nat, e: nat, n: nat, allocations: bool)
    requires Interval(p, b, e) && |p| == |vs| && n <= |p|
    ensures SubtreeSum(p, Measures(vs, allocations), b, n)
         == if n <= b then 0 else VisitSum(vs[b..if n < e then n else e], allocations)
    decreases n
  {
    if n > 0 {
      IntervalSum(vs, p, b, e, n - 1, allocations);
      IntervalIsSubtree(p, b, e, n - 1);
      if b < n <= e {
        VisitSumStep(vs, b, n, allocations);
      }
    }
  }

  // ---------------------------------------------------------------------------------------
  // Parent slots are those of the tree
  // ---------------------------------------------------------------------------------------

  /** The parent slots of a tree written from slot `b` on, below slot `q`. */
  function TreeParents(t: Category, q: int, b: nat): (p: seq<int>)
    ensures |p| == TreeCount(t)
    decreases t, 0
  {
    [q] + AllParents(t.children, b, b + 1)
  }

  function AllParents(ts: seq<Category>, q: int, b: nat): (p: seq<int>)
    ensures |p| == AllCount(ts)
    decreases ts
  {
    if ts == [] then [] else TreeParents(ts[0], q, b) + AllParents(ts[1..], q, b + TreeCount(ts[0]))
  }

  lemma SliceParts<T>(s: seq<T>, b: nat, m: nat, e: nat, x: seq<T>, y: seq<T>)
    requires b <= m <= e <= |s| && s[b..e] == x + y && |x| == m - b
    ensures s[b..m] == x && s[m..e] == y
  {
    assert s[b..m] == s[b..e][..m - b];
    assert s[m..e] == s[b..e][m - b..];
  }

  /** Where the visits of the first tree of a forest end. */
  lemma FirstTree(vs: seq<Visit>, ts: seq<Category>, isRoot: bool, up: nat, b: nat, e: nat)
    requires ts != [] && b <= e == b + AllCount(ts) <= |vs| && vs[b..e] == VisitAll(ts, isRoot, up)
    ensures
      var m := b + TreeCount(ts[0]);
      b < m <= e && vs[b..m] == VisitTree(ts[0], isRoot, up) && vs[m..e] == VisitAll(ts[1..], isRoot, up)
  {
    TreeCounted(ts[0], isRoot, up);
    SliceParts(vs, b, b + TreeCount(ts[0]), e, VisitTree(ts[0], isRoot, up), VisitAll(ts[1..], isRoot, up));
  }

  lemma SliceJoin<T>(s: seq<T>, b: nat, m: nat, e: nat)
    requires b <= m <= e <= |s|
    ensures s[b..e] == s[b..m] + s[m..e]
  {
  }

  /** Every category hangs at `q` or at a slot of its own forest. */
  lemma {:induction false} ParentsInside(ts: seq<Category>, q: int, b: nat)
    ensures forall k | 0 <= k < |AllParents(ts, q, b)| :: AllParents(ts, q, b)[k] == q || AllParents(ts, q, b)[k] >= b
    decreases ts
  {
    if ts != [] {
      var first, rest := TreeParents(ts[0], q, b), AllParents(ts[1..], q, b + TreeCount(ts[0]));
      ParentsInside(ts[0].children, b, b + 1);
      ParentsInside(ts[1..], q, b + TreeCount(ts[0]));
      assert forall k | 0 <= k < |first| :: k == 0 || first[k] == AllParents(ts[0].children, b, b + 1)[k - 1];
      assert forall k | |first| <= k < |first + rest| :: (first + rest)[k] == rest[k - |first|];
    }
  }

  /** The slot that `LastVisit` finds when a code was visited at `q` and not since. */
  lemma {:induction false} LastVisitIs(vs: seq<Visit>, code: nat, q: nat)
    requires q < |vs| && vs[q].code == code && forall j | q < j < |vs| :: vs[j].code != code
    ensures LastVisit(vs, code) == q
    decreases |vs|
  {
    if q < |vs| - 1 {
      LastVisitIs(vs[..|vs| - 1], code, q);
    }
  }

  /** A non-root's parent was visited at slot `q`, and its code not again before slot `e`. */
  predicate ParentAt(vs: seq<Visit>, isRoot: bool, up: nat, q: int, b: nat, e: nat)
    requires b <= e <= |vs|
  {
    if isRoot then q == -1
    else 0 <= q < b && vs[q].code == up && forall j | q < j < e :: vs[j].code != up
  }

  lemma ParentStays(vs: seq<Visit>, isRoot: bool, up: nat, q: int, b: nat, e: nat, m: nat, n: nat)
    requires b <= m <= n <= e <= |vs| && ParentAt(vs, isRoot, up, q, b, e)
    ensures ParentAt(vs, isRoot, up, q, m, n)
  {
  }

  predicate ParentIs(vs: seq<Visit>, p: seq<int>, k: nat)
    requires k < |vs| == |p|
  {
    p[k] == ParentSlot(vs, k)
  }

  /** `p` are the parent slots of `vs`. */
  predicate SlotsOf(vs: seq<Visit>, p: seq<int>) {
    |p| == |vs| && forall k {:trigger ParentIs(vs, p, k)} | 0 <= k < |vs| :: ParentIs(vs, p, k)
  }

  /** The mapping by codes finds for every category of a tree the slot of its own parent. */
  lemma {:induction false} TreePlaced(vs: seq<Visit>, p: seq<int>, t: Category, isRoot: bool, up: nat,
                                      q: int, b: nat, e: nat)
    requires SlotsOf(vs, p) && Acyclic(t)
    requires b < e == b + TreeCount(t) <= |vs| && vs[b..e] == VisitTree(t, isRoot, up)
    requires ParentAt(vs, isRoot, up, q, b, b)
    ensures p[b..e] == TreeParents(t, q, b)
    decreases t, 0
  {
    var below := VisitAll(t.children, false, t.code);
    AllCounted(t.children, false, t.code);
    assert vs[b] == vs[b..e][0];
    assert vs[b + 1..e] == vs[b..e][1..] == below;
    assert forall j | b < j < e :: vs[j] == vs[b + 1..e][j - b - 1] == below[j - b - 1];
    AllPlaced(vs, p, t.children, false, t.code, b, b + 1, e);
    assert ParentIs(vs, p, b);
    if !isRoot {
      LastVisitIs(vs[..b], up, q);
    }
    SliceJoin(p, b, b + 1, e);
    assert p[b..b + 1] == [q];
  }

  lemma {:induction false} AllPlaced(vs: seq<Visit>, p: seq<int>, ts: seq<Category>, isRoot: bool, up: nat,
                                     q: int, b: nat, e: nat)
    requires SlotsOf(vs, p) && AllAcyclic(ts)
    requires b <= e == b + AllCount(ts) <= |vs| && vs[b..e] == VisitAll(ts, isRoot, up)
    requires ParentAt(vs, isRoot, up, q, b, e)
    ensures p[b..e] == AllParents(ts, q, b)
    decreases ts
  {
    if ts != [] {
      var m := b + TreeCount(ts[0]);
      FirstTree(vs, ts, isRoot, up, b, e);
      ParentStays(vs, isRoot, up, q, b, e, b, b);
      ParentStays(vs, isRoot, up, q, b, e, m, e);
      TreePlaced(vs, p, ts[0], isRoot, up, q, b, m);
      AllPlaced(vs, p, ts[1..], isRoot, up, q, m, e);
      SliceJoin(p, b, m, e);
    }
  }

  /** Nothing after slot `e` hangs at one of the slots from `b` up to `e`. */
  predicate LeftBehind(p: seq<int>, b: nat, e: nat) {
    forall k | e <= k < |p| :: p[k] < b || e <= p[k]
  }

  lemma TreeIsInterval(p: seq<int>, t: Category, q: int, b: nat, e: nat)
    requires ParentFirst(p) && b < e == b + TreeCount(t) <= |p| && p[b..e] == TreeParents(t, q, b)
    requires LeftBehind(p, b, e)
    ensures Interval(p, b, e)
  {
    ParentsInside(t.children, b, b + 1);
    assert forall k | b < k < e :: p[k] == p[b..e][k - b] == AllParents(t.children, b, b + 1)[k - b - 1];
  }

  // ---------------------------------------------------------------------------------------
  // The totals
  // ---------------------------------------------------------------------------------------

  function Sums(vs: seq<Visit>, allocations: bool): (s: seq<int>)
    ensures |s| == |vs|
    ensures forall k | 0 <= k < |vs| ::
              s[k] == SubtreeSum(ParentSlots(vs), Measures(vs, allocations), k, |vs|)
  {
    seq(|vs|, k requires 0 <= k < |vs| => SubtreeSum(ParentSlots(vs), Measures(vs, allocations), k, |vs|))
  }

  lemma {:induction false} TreeTotals(vs: seq<Visit>, t: Category, isRoot: bool, up: nat, q: int, b: nat, e: nat,
                                      allocations: bool)
    requires b < e == b + TreeCount(t) <= |vs| && vs[b..e] == VisitTree(t, isRoot, up)
    requires q < b && ParentSlots(vs)[b..e] == TreeParents(t, q, b) && LeftBehind(ParentSlots(vs), b, e)
    ensures TreeMatches(t, b, Sums(vs, allocations), allocations)
    decreases t, 0
  {
    var p := ParentSlots(vs);
    TreeIsInterval(p, t, q, b, e);
    IntervalSum(vs, p, b, e, |vs|, allocations);
    TreeVisitSum(t, isRoot, up, allocations);
    AllCounted(t.children, false, t.code);
    assert vs[b + 1..e] == vs[b..e][1..] == VisitAll(t.children, false, t.code);
    assert p[b + 1..e] == p[b..e][1..] == AllParents(t.children, b, b + 1);
    AllTotals(vs, t.children, false, t.code, b, b + 1, e, allocations);
  }

  lemma {:induction false} AllTotals(vs: seq<Visit>, ts: seq<Category>, isRoot: bool, up: nat, q: int, b: nat, e: nat,
                                     allocations: bool)
    requires b <= e == b + AllCount(ts) <= |vs| && vs[b..e] == VisitAll(ts, isRoot, up)
    requires q < b && ParentSlots(vs)[b..e] == AllParents(ts, q, b) && LeftBehind(ParentSlots(vs), b, e)
    ensures AllMatch(ts, b, Sums(vs, allocations), allocations)
    decreases ts
  {
    if ts != [] {
      var m, p := b + TreeCount(ts[0]), ParentSlots(vs);
      FirstTree(vs, ts, isRoot, up, b, e);
      SliceParts(p, b, m, e, TreeParents(ts[0], q, b), AllParents(ts[1..], q, m));
      SiblingsLeftBehind(p, ts[1..], q, b, m, e);
      TreeTotals(vs, ts[0], isRoot, up, q, b, m, allocations);
      AllTotals(vs, ts[1..], isRoot, up, q, m, e, allocations);
    }
  }

  lemma SiblingsLeftBehind(p: seq<int>, ts: seq<Category>, q: int, b: nat, m: nat, e: nat)
    requires b <= m <= e <= |p| && q < b && LeftBehind(p, b, e) && p[m..e] == AllParents(ts, q, m)
    ensures LeftBehind(p, b, m) && LeftBehind(p, m, e)
  {
    ParentsInside(ts, q, m);
    assert forall k | m <= k < e :: p[k] == p[m..e][k - m];
  }

  // ---------------------------------------------------------------------------------------
  // The report of a whole tree
  // ---------------------------------------------------------------------------------------

  lemma {:induction false} WrappedSum(p: seq<int>, v: seq<int>, i: int, n: nat)
    requires ParentFirst(p) && |v| == |p| && n <= |p|
    ensures Wrap64(SubtreeSum(p, Wrapped(v), i, n)) == Wrap64(SubtreeSum(p, v, i, n))
    decreases n
  {
    if n > 0 {
      WrappedSum(p, v, i, n - 1);
      var a, b := SubtreeSum(p, Wrapped(v), i, n - 1), SubtreeSum(p, v, i, n - 1);
      WrapAdd(a, v[n - 1]);
      WrapAdd(b, v[n - 1]);
      WrapAdd(a, Wrap64(v[n - 1]));
    }
  }

  /** The deep counters of a report hold the int64 values of the subtree sums of its walk. */
  lemma ReportHoldsSums(s: seq<MemoryCategory>, vs: seq<Visit>, k: nat)
    requires Reports(s, vs) && k < |vs|
    ensures s[k].liveBytesDeep == Wrap64(Sums(vs, false)[k])
    ensures s[k].liveAllocationsDeep == Wrap64(Sums(vs, true)[k])
  {
    var f := ForestOf(vs);
    assert s[k] == f.WithTotals(s[k], k);
    WrappedSum(f.p, Measures(vs, false), k, |vs|);
    WrappedSum(f.p, Measures(vs, true), k, |vs|);
  }

  /** The deep counter of a slot. */
  function Deep(c: MemoryCategory, allocations: bool): int {
    if allocations then c.liveAllocationsDeep else c.liveBytesDeep
  }

  function Shallow(c: MemoryCategory, allocations: bool): int {
    if allocations then c.liveAllocationsShallow else c.liveBytesShallow
  }

  /** The deep counters of the slots without a parent, up to slot `n`, added up. */
  function RootDeeps(s: seq<MemoryCategory>, n: nat, allocations: bool): int
    requires n <= |s|
  {
    if n == 0 then 0 else RootDeeps(s, n - 1, allocations) + Keep(s[n - 1].parent == 0, Deep(s[n - 1], allocations))
  }

  function Shallows(s: seq<MemoryCategory>, n: nat, allocations: bool): int
    requires n <= |s|
  {
    if n == 0 then 0 else Shallows(s, n - 1, allocations) + Shallow(s[n - 1], allocations)
  }

  /** The counters of the forest that a report is about. */
  function ValuesOf(vs: seq<Visit>, allocations: bool): (v: seq<int>)
    ensures |v| == |vs|
  {
    Wrapped(Measures(vs, allocations))
  }

  /** Slot `k` holds its value, its subtree sum and the link to its parent. */
  predicate SlotIs(c: MemoryCategory, p: seq<int>, v: seq<int>, k: nat, allocations: bool)
    requires ParentFirst(p) && |v| == |p| && k < |p|
  {
    && (c.parent == 0 <==> p[k] == -1)
    && Shallow(c, allocations) == v[k]
    && Deep(c, allocations) == Wrap64(SubtreeSum(p, v, k, |p|))
  }

  lemma SlotHolds(s: seq<MemoryCategory>, vs: seq<Visit>, k: nat, allocations: bool)
    requires Reports(s, vs) && k < |s|
    ensures SlotIs(s[k], ParentSlots(vs), ValuesOf(vs, allocations), k, allocations)
  {
    var f := ForestOf(vs);
    assert s[k] == f.WithTotals(s[k], k) && LinkedTo(f.p, s[k], k, |f.p|) && f.Carries(s[k], k);
  }

  lemma AddDeep(a: int, b: int, sum: int)
    requires Wrap64(a) == Wrap64(b)
    ensures Wrap64(a + Wrap64(sum)) == Wrap64(b + sum)
  {
    WrapAdd(a, Wrap64(sum));
    WrapAdd(b, sum);
  }

  lemma {:induction false} RootDeepsAreSums(s: seq<MemoryCategory>, p: seq<int>, v: seq<int>, n: nat, allocations: bool)
    requires ParentFirst(p) && |s| == |p| == |v| && n <= |s|
    requires forall k | 0 <= k < |s| :: SlotIs(s[k], p, v, k, allocations)
    ensures Wrap64(RootDeeps(s, n, allocations)) == Wrap64(ChildrenSum(p, v, -1, n, |p|))
    ensures Shallows(s, n, allocations) == Sum(v, n)
  {
    if n > 0 {
      RootDeepsAreSums(s, p, v, n - 1, allocations);
      assert SlotIs(s[n - 1], p, v, n - 1, allocations);
      AddDeep(RootDeeps(s, n - 1, allocations), ChildrenSum(p, v, -1, n - 1, |p|), SubtreeSum(p, v, n - 1, |p|));
    }
  }

  /**
   In every report, of a whole walk or of the part that fitted, the deep counters of the roots add up to
   the shallow counters of all slots written (as int64 values).
   */
  lemma RootTotalsCoverReport(s: seq<MemoryCategory>, vs: seq<Visit>, allocations: bool)
    requires Reports(s, vs)
    ensures Wrap64(RootDeeps(s, |s|, allocations)) == Wrap64(Shallows(s, |s|, allocations))
  {
    var p, v := ParentSlots(vs), ValuesOf(vs, allocations);
    forall k | 0 <= k < |s|
      ensures SlotIs(s[k], p, v, k, allocations)
    {
      SlotHolds(s, vs, k, allocations);
    }
    RootDeepsAreSums(s, p, v, |s|, allocations);
    RootsCoverEverything(p, v);
  }

  /**
   End to end: the report of a category forest in which no category has its own code below it holds, for
   every category of the forest, the total of that category's own tree in the slot where the walk wrote
   it. Codes may repeat otherwise.
   */
  lemma ReportHoldsTreeTotals(s: seq<MemoryCategory>, roots: seq<Category>)
    requires AllAcyclic(roots) && Reports(s, VisitAll(roots, true, 0))
    ensures
      var vs := VisitAll(roots, true, 0);
      && AllMatch(roots, 0, Sums(vs, false), false) && AllMatch(roots, 0, Sums(vs, true), true)
      && (forall k | 0 <= k < |vs| ::
            && s[k].liveBytesDeep == Wrap64(Sums(vs, false)[k])
            && s[k].liveAllocationsDeep == Wrap64(Sums(vs, true)[k]))
  {
    var vs := VisitAll(roots, true, 0);
    AllCounted(roots, true, 0);
    assert vs[0..|vs|] == vs;
    var p := ParentSlots(vs);
    assert forall k {:trigger ParentIs(vs, p, k)} | 0 <= k < |vs| :: ParentIs(vs, p, k);
    AllPlaced(vs, p, roots, true, 0, -1, 0, |vs|);
    AllTotals(vs, roots, true, 0, -1, 0, |vs|, false);
    AllTotals(vs, roots, true, 0, -1, 0, |vs|, true);
    forall k | 0 <= k < |vs|
      ensures s[k].liveBytesDeep == Wrap64(Sums(vs, false)[k])
      ensures s[k].liveAllocationsDeep == Wrap64(Sums(vs, true)[k])
    {
      ReportHoldsSums(s, vs, k);
    }
  }

  lemma {:induction false} ShallowsAreVisits(s: seq<MemoryCategory>, vs: seq<Visit>, n: nat, allocations: bool)
    requires |s| == |vs| && n <= |s|
    requires forall k | 0 <= k < |s| :: Shallow(s[k], allocations) == Wrap64(Measure(vs[k], allocations))
    ensures Wrap64(Shallows(s, n, allocations)) == Wrap64(VisitSum(vs[..n], allocations))
  {
    if n > 0 {
      ShallowsAreVisits(s, vs, n - 1, allocations);
      assert vs[..n][..n - 1] == vs[..n - 1];
      AddDeep(Shallows(s, n - 1, allocations), VisitSum(vs[..n - 1], allocations), Measure(vs[n - 1], allocations));
    }
  }

  /**
   The deep counters of the roots of a report add up to the total over the whole forest, whatever codes
   repeat in it: a category that is reached twice is counted twice.
   */
  lemma RootTotalsAreForestTotal(s: seq<MemoryCategory>, roots: seq<Category>, allocations: bool)
    requires Reports(s, VisitAll(roots, true, 0))
    ensures Wrap64(RootDeeps(s, |s|, allocations)) == Wrap64(AllTotal(roots, allocations))
  {
    var vs := VisitAll(roots, true, 0);
    RootTotalsCoverReport(s, vs, allocations);
    forall k | 0 <= k < |s|
      ensures Shallow(s[k], allocations) == Wrap64(Measure(vs[k], allocations))
    {
      SlotHolds(s, vs, k, allocations);
    }
    ShallowsAreVisits(s, vs, |s|, allocations);
    assert vs[..|s|] == vs;
    AllVisitSum(roots, true, 0, allocations);
  }

  /** The parents that a report names are those of the walk. */
  lemma ReportParents(s: seq<MemoryCategory>, vs: seq<Visit>)
    requires Reports(s, vs)
    ensures Parents(s) == ParentSlots(vs) && Linked(ParentSlots(vs), s)
  {
    forall j | 0 <= j < |s|
      ensures s[j].parent - 1 == ParentSlots(vs)[j]
    {
      assert LinkedTo(ParentSlots(vs), s[j], j, |s|);
    }
  }

  /** In every report the child chain of a slot ends and lists exactly the slots that name it as parent, in order. */
  lemma ReportChains(s: seq<MemoryCategory>, vs: seq<Visit>, i: nat, c: nat)
    requires Reports(s, vs) && i < |s|
    ensures ForwardLinks(s) && 0 <= s[i].firstChild <= |s|
    ensures Chain(s, s[i].firstChild) == Children(ParentSlots(vs), i, 0, |s|)
    ensures c in Chain(s, s[i].firstChild) <==> c < |s| && ParentSlot(vs, c) == i
  {
    ReportParents(s, vs);
    ChainListsChildren(s, i);
    ChainMembers(s, i, c);
  }

  /** Buffer element `c` shows the category of visit `v`, below slot `q`. */
  predicate ShowsVisit(c: MemoryCategory, v: Visit, q: int) {
    && c.name == v.name && c.parent == q + 1
    && c.liveBytesShallow == Wrap64(v.bytes) && c.liveAllocationsShallow == Wrap64(v.allocations)
  }

  /** All visits are shown, below the slots `p`. */
  predicate AllVisitsShown(s: seq<MemoryCategory>, vs: seq<Visit>, p: seq<int>) {
    && |s| == |vs| == |p|
    && forall k {:trigger ShowsVisit(s[k], vs[k], p[k])} | 0 <= k < |s| :: ShowsVisit(s[k], vs[k], p[k])
  }

  lemma ReportShowsVisits(s: seq<MemoryCategory>, vs: seq<Visit>)
    requires Reports(s, vs)
    ensures AllVisitsShown(s, vs, ParentSlots(vs))
  {
    forall k | 0 <= k < |s|
      ensures ShowsVisit(s[k], vs[k], ParentSlots(vs)[k])
    {
      ReportParents(s, vs);
      SlotHolds(s, vs, k, false);
      SlotHolds(s, vs, k, true);
    }
  }

  /** Category `t` is shown in slot `b`, below slot `q`, with everything below it in the slots that follow. */
  predicate TreeShown(t: Category, q: int, b: nat, s: seq<MemoryCategory>)
    decreases t, 0
  {
    && b < |s| && s[b].name == t.name && s[b].parent == q + 1
    && s[b].liveBytesShallow == Wrap64(t.bytes) && s[b].liveAllocationsShallow == Wrap64(t.allocations)
    && AllShown(t.children, b, b + 1, s)
  }

  predicate AllShown(ts: seq<Category>, q: int, b: nat, s: seq<MemoryCategory>)
    decreases ts
  {
    ts == [] || (TreeShown(ts[0], q, b, s) && AllShown(ts[1..], q, b + TreeCount(ts[0]), s))
  }

  lemma {:induction false} ShowsTree(s: seq<MemoryCategory>, vs: seq<Visit>, p: seq<int>, t: Category,
                                     isRoot: bool, up: nat, q: int, b: nat, e: nat)
    requires AllVisitsShown(s, vs, p) && b < e == b + TreeCount(t) <= |vs| && vs[b..e] == VisitTree(t, isRoot, up)
    requires p[b..e] == TreeParents(t, q, b)
    ensures TreeShown(t, q, b, s)
    decreases t, 0
  {
    assert ShowsVisit(s[b], vs[b], p[b]);
    assert vs[b] == vs[b..e][0] && p[b] == p[b..e][0];
    assert vs[b + 1..e] == vs[b..e][1..] && p[b + 1..e] == p[b..e][1..];
    ShowsAll(s, vs, p, t.children, false, t.code, b, b + 1, e);
  }

  lemma {:induction false} ShowsAll(s: seq<MemoryCategory>, vs: seq<Visit>, p: seq<int>, ts: seq<Category>,
                                    isRoot: bool, up: nat, q: int, b: nat, e: nat)
    requires AllVisitsShown(s, vs, p) && b <= e == b + AllCount(ts) <= |vs| && vs[b..e] == VisitAll(ts, isRoot, up)
    requires p[b..e] == AllParents(ts, q, b)
    ensures AllShown(ts, q, b, s)
    decreases ts
  {
    if ts != [] {
      var m := b + TreeCount(ts[0]);
      TreeCounted(ts[0], isRoot, up);
      SliceParts(vs, b, m, e, VisitTree(ts[0], isRoot, up), VisitAll(ts[1..], isRoot, up));
      SliceParts(p, b, m, e, TreeParents(ts[0], q, b), AllParents(ts[1..], q, m));
      ShowsTree(s, vs, p, ts[0], isRoot, up, q, b, m);
      ShowsAll(s, vs, p, ts[1..], isRoot, up, q, m, e);
    }
  }

  /**
   The report shows the forest itself: every category once, in the order of the tables, with its own name and
   its own bytes and allocations, below the slot of its own parent.
   */
  lemma ReportShowsForest(s: seq<MemoryCategory>, roots: seq<Category>)
    requires AllAcyclic(roots) && Reports(s, VisitAll(roots, true, 0))
    ensures |s| == AllCount(roots) && AllShown(roots, -1, 0, s)
  {
    var vs := VisitAll(roots, true, 0);
    AllCounted(roots, true, 0);
    assert vs[0..|vs|] == vs;
    var p := ParentSlots(vs);
    assert forall k {:trigger ParentIs(vs, p, k)} | 0 <= k < |vs| :: ParentIs(vs, p, k);
    AllPlaced(vs, p, roots, true, 0, -1, 0, |vs|);
    ReportShowsVisits(s, vs);
    ShowsAll(s, vs, p, roots, true, 0, -1, 0, |vs|);
  }

  // ---------------------------------------------------------------------------------------
  // The walk without language categories
  // ---------------------------------------------------------------------------------------

  const PORT_LIBRARY: nat := 0x8000_0001
  const UNKNOWN: nat := 0x8000_0000
  const UNUSED_ALLOCATE32_REGIONS: nat := 0x8000_0009

  /**
   The default categories of a 64-bit port library. The walk starts at each of the three, although
   the last is also a child of the first.
   */
  function DefaultRoots(port: Category, unknown: Category, unused: Category): seq<Category> {
    [port.(code := PORT_LIBRARY, children := [unused.(code := UNUSED_ALLOCATE32_REGIONS, children := [])]),
     unknown.(code := UNKNOWN, children := []),
     unused.(code := UNUSED_ALLOCATE32_REGIONS, children := [])]
  }

  /** What the three categories hold, with the unused regions taken twice. */
  function DefaultSum(port: Category, unknown: Category, unused: Category, allocations: bool): int {
    Own(port, allocations) + Own(unknown, allocations) + Own(unused, allocations) + Own(unused, allocations)
  }

  /**
   The report of the default walk: it visits the unused regions twice, so the deep counters of its roots
   exceed the sum over the three categories by the bytes and allocations of the unused regions.
   */
  lemma DefaultWalkCountsTwice(s: seq<MemoryCategory>, port: Category, unknown: Category, unused: Category,
                               allocations: bool)
    requires Reports(s, VisitAll(DefaultRoots(port, unknown, unused), true, 0))
    ensures Wrap64(RootDeeps(s, |s|, allocations)) == Wrap64(DefaultSum(port, unknown, unused, allocations))
  {
    DefaultTotal(port, unknown, unused, allocations);
    RootTotalsAre(s, DefaultRoots(port, unknown, unused), allocations,
                  DefaultSum(port, unknown, unused, allocations));
  }

  lemma RootTotalsAre(s: seq<MemoryCategory>, roots: seq<Category>, allocations: bool, total: int)
    requires Reports(s, VisitAll(roots, true, 0)) && AllTotal(roots, allocations) == total
    ensures Wrap64(RootDeeps(s, |s|, allocations)) == Wrap64(total)
  {
    RootTotalsAreForestTotal(s, roots, allocations);
  }

  lemma DefaultTotal(port: Category, unknown: Category, unused: Category, allocations: bool)
    ensures AllTotal(DefaultRoots(port, unknown, unused), allocations)
         == DefaultSum(port, unknown, unused, allocations)
  {
    var roots := DefaultRoots(port, unknown, unused);
    AllTotalOfThree(roots[0], roots[1], roots[2], allocations);
    TotalOfOne(roots[2], allocations);
  }

  /** The default walk is fit for a report although it repeats a code. */
  lemma DefaultWalkFits(port: Category, unknown: Category, unused: Category)
    ensures
      var roots := DefaultRoots(port, unknown, unused);
      var vs := VisitAll(roots, true, 0);
      AllAcyclic(roots) && GoodCodes(vs) && ParentsVisited(vs) && !DistinctCodes(vs)
  {
    var roots := DefaultRoots(port, unknown, unused);
    var vs := VisitAll(roots, true, 0);
    DefaultVisits(roots[0], roots[1], roots[2]);
    DefaultAcyclic(roots[0], roots[1], roots[2]);
    WalkVisitsParentsFirst(roots);
    assert vs[1].code == vs[3].code;
  }

  lemma DefaultAcyclic(a: Category, b: Category, c: Category)
    requires a.children == [c] && a.code != c.code && b.children == [] && c.children == []
    ensures AllAcyclic([a, b, c])
  {
    assert [a, b, c][1..] == [b, c] && [b, c][1..] == [c] && [c][1..] == [];
    LeafVisits(c, false, a.code);
    assert Acyclic(b) && Acyclic(c);
    assert AllAcyclic([c]);
    assert AllAcyclic([b, c]);
    assert Acyclic(a);
  }

  lemma LeafVisits(a: Category, isRoot: bool, up: nat)
    requires a.children == []
    ensures VisitAll([a], isRoot, up) == [Visit(a.code, a.name, a.bytes, a.allocations, isRoot, up)]
  {
    assert [a][1..] == [];
    assert VisitTree(a, isRoot, up) == [Visit(a.code, a.name, a.bytes, a.allocations, isRoot, up)];
  }

  /** The four visits of a root with one child and two roots without children. */
  lemma DefaultVisits(a: Category, b: Category, c: Category)
    requires |a.children| == 1 && a.children[0].children == [] && b.children == [] && c.children == []
    ensures
      var d := a.children[0];
      VisitAll([a, b, c], true, 0) ==
      [Visit(a.code, a.name, a.bytes, a.allocations, true, 0),
       Visit(d.code, d.name, d.bytes, d.allocations, false, a.code),
       Visit(b.code, b.name, b.bytes, b.allocations, true, 0),
       Visit(c.code, c.name, c.bytes, c.allocations, true, 0)]
  {
    assert [a, b, c][1..] == [b, c] && [b, c][1..] == [c] && a.children == [a.children[0]];
    LeafVisits(a.children[0], false, a.code);
    LeafVisits(b, true, 0);
    LeafVisits(c, true, 0);
  }

  lemma TotalOfOne(a: Category, allocations: bool)
    ensures AllTotal([a], allocations) == TreeTotal(a, allocations)
  {
    assert [a][1..] == [];
  }

  lemma AllTotalOfThree(a: Category, b: Category, c: Category, allocations: bool)
    ensures AllTotal([a, b, c], allocations)
         == TreeTotal(a, allocations) + TreeTotal(b, allocations) + TreeTotal(c, allocations)
  {
    assert [a, b, c][1..] == [b, c] && [b, c][1..] == [c];
    TotalOfOne(c, allocations);
  }
}
