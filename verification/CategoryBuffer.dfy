/**
 The two passes over the flat buffer of memory categories (omr/OMR_TI.cpp): linking every category
 to its children, with `liveBytesDeep` borrowed as the tail of the child list, and summing the deep
 counters recursively in place.

 A pointer to a buffer element is its slot number plus one; 0 is NULL. The number that a pointer
 becomes when it is stored in `liveBytesDeep` is the same.
 */
module CategoryBuffer {
  import opened MachineInts
  import opened CategoryForest

  datatype MemoryCategory = MemoryCategory(
    name: string,
    liveBytesShallow: int, liveBytesDeep: int,
    liveAllocationsShallow: int, liveAllocationsDeep: int,
    firstChild: int, nextSibling: int, parent: int)

  /** The element after `memset(..., 0, ...)`. */
  const Zeroed: MemoryCategory := MemoryCategory("", 0, 0, 0, 0, 0, 0, 0)

  // ---------------------------------------------------------------------------------------
  // Views of a buffer
  // ---------------------------------------------------------------------------------------

  function Parents(s: seq<MemoryCategory>): (p: seq<int>)
    ensures |p| == |s| && forall j | 0 <= j < |s| :: p[j] == s[j].parent - 1
  {
    seq(|s|, j requires 0 <= j < |s| => s[j].parent - 1)
  }

  /** `a` and `b` differ at most in the deep counters. */
  predicate SameButDeep(a: MemoryCategory, b: MemoryCategory) {
    b == a.(liveBytesDeep := b.liveBytesDeep, liveAllocationsDeep := b.liveAllocationsDeep)
  }

  /** `a` and `b` differ at most in the links to children and in the borrowed field. */
  predicate SameButLinks(a: MemoryCategory, b: MemoryCategory) {
    b == a.(liveBytesDeep := b.liveBytesDeep, firstChild := b.firstChild, nextSibling := b.nextSibling)
  }

  /** The link fields of slot `j` as the pass has set them once the first `n` slots are linked. */
  predicate LinkedTo(p: seq<int>, c: MemoryCategory, j: nat, n: nat)
    requires j < |p| && n <= |p|
  {
    && c.parent - 1 == p[j]
    && c.firstChild - 1 == NextChild(p, j, 0, n)
    && c.nextSibling - 1 == (if p[j] == -1 then -1 else NextChild(p, p[j], j + 1, n))
  }

  /** All links of buffer `s` are set as its parents `p` demand. */
  predicate Linked(p: seq<int>, s: seq<MemoryCategory>) {
    && ParentFirst(p) && |s| == |p|
    && forall j {:trigger LinkedTo(p, s[j], j, |p|)} | 0 <= j < |s| :: LinkedTo(p, s[j], j, |p|)
  }

  /** Every sibling link leads to a later slot. */
  predicate ForwardLinks(s: seq<MemoryCategory>) {
    forall j | 0 <= j < |s| :: s[j].nextSibling == 0 || j + 1 < s[j].nextSibling <= |s|
  }

  /** The chain of siblings that starts at pointer `cursor`. */
  function Chain(s: seq<MemoryCategory>, cursor: int): (slots: seq<nat>)
    requires ForwardLinks(s) && 0 <= cursor <= |s|
    decreases if cursor == 0 then 0 else |s| - cursor + 1
  {
    if cursor == 0 then [] else [cursor - 1] + Chain(s, s[cursor - 1].nextSibling)
  }

  /**
   In a linked buffer the child chain of every slot lists exactly its children, once each, in buffer
   order: it ends, and contains a slot exactly when that slot's parent is `i`.
   */
  lemma ChainListsChildren(s: seq<MemoryCategory>, i: nat)
    requires Linked(Parents(s), s) && i < |s|
    ensures ForwardLinks(s) && 0 <= s[i].firstChild <= |s|
    ensures Chain(s, s[i].firstChild) == Children(Parents(s), i, 0, |s|)
  {
    LinkedForward(Parents(s), s);
    assert LinkedTo(Parents(s), s[i], i, |s|);
    ChainFrom(Parents(s), s, i, 0);
  }

  /** Each slot is on the chain of its own parent and on no other, and no chain visits a slot twice. */
  lemma ChainMembers(s: seq<MemoryCategory>, i: nat, c: nat)
    requires Linked(Parents(s), s) && i < |s|
    ensures ForwardLinks(s) && 0 <= s[i].firstChild <= |s|
    ensures c in Chain(s, s[i].firstChild) <==> c < |s| && s[c].parent == i + 1
    ensures forall a, b | 0 <= a < b < |Chain(s, s[i].firstChild)| ::
              Chain(s, s[i].firstChild)[a] < Chain(s, s[i].firstChild)[b]
  {
    ChainListsChildren(s, i);
    var p := Parents(s);
    ChildrenMembers(p, i, 0, |s|, c);
    forall a, b | 0 <= a < b < |Children(p, i, 0, |s|)|
      ensures Children(p, i, 0, |s|)[a] < Children(p, i, 0, |s|)[b]
    {
      ChildrenIncrease(p, i, 0, |s|, a, b);
    }
  }

  lemma LinkedForward(p: seq<int>, s: seq<MemoryCategory>)
    requires Linked(p, s)
    ensures ForwardLinks(s)
    ensures forall j | 0 <= j < |s| :: 0 <= s[j].firstChild <= |s|
  {
    forall j | 0 <= j < |s|
      ensures s[j].nextSibling == 0 || j + 1 < s[j].nextSibling <= |s|
      ensures 0 <= s[j].firstChild <= |s|
    {
      assert LinkedTo(p, s[j], j, |p|);
    }
  }

  lemma SiblingIsNext(p: seq<int>, s: seq<MemoryCategory>, c: nat)
    requires Linked(p, s) && c < |s| && p[c] != -1
    ensures s[c].nextSibling == NextChild(p, p[c], c + 1, |s|) + 1
  {
    assert LinkedTo(p, s[c], c, |p|);
  }

  lemma {:induction false} ChainFrom(p: seq<int>, s: seq<MemoryCategory>, i: nat, lo: nat)
    requires Linked(p, s) && ForwardLinks(s) && i < |s| && lo <= |s|
    ensures Chain(s, NextChild(p, i, lo, |s|) + 1) == Children(p, i, lo, |s|)
    decreases |s| - lo
  {
    var c := NextChild(p, i, lo, |s|);
    ChildrenFromNext(p, i, lo, |s|);
    if c != -1 {
      SiblingIsNext(p, s, c);
      ChainFrom(p, s, i, c + 1);
    }
  }

  // ---------------------------------------------------------------------------------------
  // fillInChildAndSiblingCategories
  // ---------------------------------------------------------------------------------------

  /** How linking slot `n` to its parent moves every slot `j` one step on. */
  lemma LinkStep(p: seq<int>, j: nat, n: nat)
    requires ParentFirst(p) && j < |p| && n < |p|
    ensures
      var q := p[n];
      var tail := if q == -1 then -1 else LastChild(p, q, n);
      && LastChild(p, j, n + 1) == (if j == q then n else LastChild(p, j, n))
      && NextChild(p, j, 0, n + 1) == (if j == q && tail == -1 then n else NextChild(p, j, 0, n))
      && (p[j] != -1 && j < n ==>
            NextChild(p, p[j], j + 1, n + 1) == (if j == tail then n else NextChild(p, p[j], j + 1, n)))
      && (p[n] != -1 ==> NextChild(p, p[n], n + 1, n + 1) == -1)
      && (p[j] != -1 && j > n ==> NextChild(p, p[j], j + 1, n + 1) == NextChild(p, p[j], j + 1, n) == -1)
  {
    NextChildExtend(p, j, 0, n);
    LastChildBounds(p, j, 0, n);
    if p[j] != -1 {
      NextChildExtend(p, p[j], j + 1, n);
      LastChildBounds(p, p[j], j + 1, n);
      if j < n {
        ChildBeforeLast(p, j, n);
      }
    }
  }

  lemma {:induction false} ChildBeforeLast(p: seq<int>, j: nat, n: nat)
    requires j < n <= |p|
    ensures LastChild(p, p[j], n) >= j
  {
    if j < n - 1 {
      ChildBeforeLast(p, j, n - 1);
    }
  }

  /** State of slot `j` when the first `n` slots have been linked; the tail pointer is in the byte count. */
  predicate SlotLinked(p: seq<int>, before: MemoryCategory, now: MemoryCategory, j: nat, n: nat)
    requires j < |p| && n <= |p|
  {
    SameButLinks(before, now) && LinkedTo(p, now, j, n) && now.liveBytesDeep - 1 == LastChild(p, j, n)
  }

  predicate LinkedPrefix(p: seq<int>, before: seq<MemoryCategory>, now: seq<MemoryCategory>, n: nat) {
    && |before| == |now| == |p| && n <= |p|
    && forall j {:trigger SlotLinked(p, before[j], now[j], j, n)} | 0 <= j < |p| ::
         SlotLinked(p, before[j], now[j], j, n)
  }

  lemma LinkedPrefixStart(p: seq<int>, s: seq<MemoryCategory>)
    requires p == Parents(s)
    requires forall j | 0 <= j < |s| :: s[j].firstChild == 0 && s[j].nextSibling == 0 && s[j].liveBytesDeep == 0
    ensures LinkedPrefix(p, s, s, 0)
  {
    forall j | 0 <= j < |p|
      ensures SlotLinked(p, s[j], s[j], j, 0)
    {
    }
  }

  /** One round of the linking loop, on slot `n`. */
  function LinkOne(s: seq<MemoryCategory>, n: nat): seq<MemoryCategory>
    requires n < |s| && 0 <= s[n].parent <= |s|
    requires s[n].parent != 0 ==> 0 <= s[s[n].parent - 1].liveBytesDeep <= |s|
  {
    if s[n].parent == 0 then s
    else
      var q := s[n].parent - 1;
      var tail := s[q].liveBytesDeep;
      var t := if tail != 0 then s[tail - 1 := s[tail - 1].(nextSibling := n + 1)]
               else s[q := s[q].(firstChild := n + 1)];
      t[q := t[q].(liveBytesDeep := n + 1)]
  }

  lemma LinkOneSlot(p: seq<int>, before: MemoryCategory, s: seq<MemoryCategory>, n: nat, j: nat)
    requires ParentFirst(p) && |s| == |p| && n < |p| && j < |p|
    requires s[n].parent - 1 == p[n]
    requires p[n] != -1 ==> s[p[n]].liveBytesDeep - 1 == LastChild(p, p[n], n)
    requires SlotLinked(p, before, s[j], j, n)
    ensures SlotLinked(p, before, LinkOne(s, n)[j], j, n + 1)
  {
    LinkStep(p, j, n);
    LinkOneAt(s, n, j);
  }

  /** What one round of the linking loop does to slot `j`. */
  lemma LinkOneAt(s: seq<MemoryCategory>, n: nat, j: nat)
    requires n < |s| && 0 <= s[n].parent <= |s| && j < |s|
    requires s[n].parent != 0 ==> 0 <= s[s[n].parent - 1].liveBytesDeep <= |s|
    ensures
      var q, tail := s[n].parent - 1, if s[n].parent == 0 then 0 else s[s[n].parent - 1].liveBytesDeep;
      LinkOne(s, n)[j] ==
        if q == -1 then s[j]
        else s[j].(nextSibling := if tail != 0 && j == tail - 1 then n + 1 else s[j].nextSibling,
                   firstChild := if tail == 0 && j == q then n + 1 else s[j].firstChild,
                   liveBytesDeep := if j == q then n + 1 else s[j].liveBytesDeep)
  {
  }

  lemma LinkOneStep(p: seq<int>, before: seq<MemoryCategory>, s: seq<MemoryCategory>, n: nat)
    requires ParentFirst(p) && LinkedPrefix(p, before, s, n) && n < |p|
    ensures 0 <= s[n].parent <= n
    ensures s[n].parent != 0 ==> 0 <= s[s[n].parent - 1].liveBytesDeep <= n
    ensures LinkedPrefix(p, before, LinkOne(s, n), n + 1)
  {
    assert SlotLinked(p, before[n], s[n], n, n);
    if p[n] != -1 {
      assert SlotLinked(p, before[p[n]], s[p[n]], p[n], n);
    }
    forall j | 0 <= j < |p|
      ensures SlotLinked(p, before[j], LinkOne(s, n)[j], j, n + 1)
    {
      assert SlotLinked(p, before[j], s[j], j, n);
      LinkOneSlot(p, before[j], s, n, j);
    }
  }

  /** The body of the linking loop. */
  method LinkOneInPlace(buffer: array<MemoryCategory>, count: nat, i: nat)
    requires i < count <= buffer.Length && 0 <= buffer[i].parent <= i
    requires buffer[i].parent != 0 ==> 0 <= buffer[buffer[i].parent - 1].liveBytesDeep <= i
    modifies buffer
    ensures buffer[..count] == LinkOne(old(buffer[..count]), i)
    ensures forall j | count <= j < buffer.Length :: buffer[j] == old(buffer[j])
  {
    var parent := buffer[i].parent;
    if parent != 0 {
      var lastChild := buffer[parent - 1].liveBytesDeep;
      if lastChild != 0 {
        buffer[lastChild - 1] := buffer[lastChild - 1].(nextSibling := i + 1);
      } else {
        buffer[parent - 1] := buffer[parent - 1].(firstChild := i + 1);
      }
      buffer[parent - 1] := buffer[parent - 1].(liveBytesDeep := i + 1);
    }
  }

  method FillInChildAndSiblingCategories(buffer: array<MemoryCategory>, count: nat)
    requires count <= buffer.Length
    requires ParentFirst(Parents(buffer[..count]))
    requires forall j | 0 <= j < count ::
               buffer[j].firstChild == 0 && buffer[j].nextSibling == 0 && buffer[j].liveBytesDeep == 0
    modifies buffer
    ensures LinkedPrefix(Parents(old(buffer[..count])), old(buffer[..count]), buffer[..count], count)
    ensures forall j | count <= j < buffer.Length :: buffer[j] == old(buffer[j])
  {
    ghost var before := buffer[..count];
    ghost var p := Parents(before);
    LinkedPrefixStart(p, before);
    var i := 0;
    while i < count
      invariant i <= count
      invariant LinkedPrefix(p, before, buffer[..count], i)
      invariant forall j | count <= j < buffer.Length :: buffer[j] == old(buffer[j])
    {
      LinkOneStep(p, before, buffer[..count], i);
      LinkOneInPlace(buffer, count, i);
      i := i + 1;
    }
  }

  // ---------------------------------------------------------------------------------------
  // fillInCategoryDeepCounters
  // ---------------------------------------------------------------------------------------

  /** A forest with the shallow values of its slots. */
  datatype Forest = Forest(p: seq<int>, bytes: seq<int>, allocations: seq<int>) {
    predicate Valid() {
      && ParentFirst(p) && |bytes| == |allocations| == |p|
      && (forall j | 0 <= j < |p| :: Int64(bytes[j]) && Int64(allocations[j]))
    }

    /** `c` with the totals of the subtree of slot `j` in its deep counters, as int64 values. */
    function WithTotals(c: MemoryCategory, j: nat): MemoryCategory
      requires Valid() && j < |p|
    {
      c.(liveBytesDeep := Wrap64(SubtreeSum(p, bytes, j, |p|)),
         liveAllocationsDeep := Wrap64(SubtreeSum(p, allocations, j, |p|)))
    }

    /** `c`, slot `i`, when its children before slot `lo` have reported to it. */
    function WithPartial(c: MemoryCategory, i: nat, lo: nat): MemoryCategory
      requires Valid() && i < |p| && lo <= |p|
    {
      c.(liveBytesDeep := Wrap64(bytes[i] + ChildrenSum(p, bytes, i, lo, |p|)),
         liveAllocationsDeep := Wrap64(allocations[i] + ChildrenSum(p, allocations, i, lo, |p|)))
    }

    /** `c` once the totals of slot `i` have been added to its deep counters. */
    function PlusTotals(c: MemoryCategory, i: nat): MemoryCategory
      requires Valid() && i < |p|
    {
      c.(liveBytesDeep := Wrap64(c.liveBytesDeep + Wrap64(SubtreeSum(p, bytes, i, |p|))),
         liveAllocationsDeep := Wrap64(c.liveAllocationsDeep + Wrap64(SubtreeSum(p, allocations, i, |p|))))
    }

    /** Buffer `s` after the recursion has run on slot `i`. */
    function AfterDeep(s: seq<MemoryCategory>, i: nat): (t: seq<MemoryCategory>)
      requires Valid() && |s| == |p| && i < |p|
      ensures |t| == |s|
    {
      seq(|s|, j requires 0 <= j < |s| =>
        if Below(p, j, i) then WithTotals(s[j], j)
        else if j == p[i] then PlusTotals(s[j], i)
        else s[j])
    }

    /** Buffer `s` inside the recursion on slot `i` (or over the roots, -1), children before `lo` done. */
    function PartDeep(s: seq<MemoryCategory>, i: int, lo: nat): (t: seq<MemoryCategory>)
      requires Valid() && |s| == |p| && -1 <= i < |p| && lo <= |p|
      ensures |t| == |s|
    {
      seq(|s|, j requires 0 <= j < |s| =>
        if j == i then WithPartial(s[j], i, lo)
        else if Below(p, j, i) && Branch(p, j, i) < lo then WithTotals(s[j], j)
        else s[j])
    }

    /** Resetting slot `i` to its shallow values starts the pass over its children. */
    lemma PartDeepStart(s: seq<MemoryCategory>, i: nat)
      requires Fits(s) && i < |p|
      ensures PartDeep(s, i, 0) == s[i := s[i].(liveBytesDeep := s[i].liveBytesShallow,
                                               liveAllocationsDeep := s[i].liveAllocationsShallow)]
    {
      assert Carries(s[i], i);
    }

    /** One more child added to a partial total. */
    lemma PartialPlusChild(category: MemoryCategory, i: nat, c: nat)
      requires Valid() && c < |p| && i < |p| && p[c] == i
      ensures WithPartial(category, i, c + 1) == PlusTotals(WithPartial(category, i, c), c)
    {
      WrapAdd(bytes[i] + ChildrenSum(p, bytes, i, c, |p|), SubtreeSum(p, bytes, c, |p|));
      WrapAdd(allocations[i] + ChildrenSum(p, allocations, i, c, |p|), SubtreeSum(p, allocations, c, |p|));
    }

    /** The recursion on a child takes the pass from one child to the next. */
    lemma PartDeepChild(s: seq<MemoryCategory>, i: int, c: nat)
      requires Valid() && |s| == |p| && -1 <= i && c < |p| && p[c] == i
      ensures PartDeep(s, i, c + 1) == AfterDeep(PartDeep(s, i, c), c)
    {
      var t, u := PartDeep(s, i, c), PartDeep(s, i, c + 1);
      forall j | 0 <= j < |p|
        ensures u[j] == AfterDeep(t, c)[j]
      {
        if Below(p, j, c) {
          BranchUnique(p, j, i, c);
        } else if j == i {
          PartialPlusChild(s[i], i, c);
        }
      }
    }

    /** From child to next child, as the sibling links lead. */
    lemma PartDeepNext(s: seq<MemoryCategory>, i: nat, lo: nat)
      requires Valid() && |s| == |p| && i < |p| && lo <= |p|
      ensures var c := NextChild(p, i, lo, |p|);
              if c == -1 then PartDeep(s, i, |p|) == PartDeep(s, i, lo)
              else PartDeep(s, i, c + 1) == AfterDeep(PartDeep(s, i, lo), c)
    {
      var c := NextChild(p, i, lo, |p|);
      NextChildLeast(p, i, lo, |p|);
      PartDeepSkip(s, i, lo, if c == -1 then |p| else c);
      if c != -1 {
        PartDeepChild(s, i, c);
      }
    }

    /** Slots that are not children of `i` are passed over. */
    lemma {:induction false} PartDeepSkip(s: seq<MemoryCategory>, i: int, lo: nat, hi: nat)
      requires Valid() && |s| == |p| && -1 <= i < |p| && lo <= hi <= |p|
      requires forall c | lo <= c < hi :: p[c] != i
      ensures PartDeep(s, i, lo) == PartDeep(s, i, hi)
      decreases hi - lo
    {
      if lo < hi {
        PartDeepSkip(s, i, lo + 1, hi);
        var t, u := PartDeep(s, i, lo), PartDeep(s, i, lo + 1);
        forall j | 0 <= j < |p|
          ensures t[j] == u[j]
        {
        }
      }
    }

    /** When no child is left, adding up and reporting to the parent completes the recursion. */
    lemma PartDeepEnd(s: seq<MemoryCategory>, i: nat)
      requires Valid() && |s| == |p| && i < |p|
      ensures
        var t := PartDeep(s, i, |p|);
        AfterDeep(s, i) == if p[i] == -1 then t else t[p[i] := PlusTotals(t[p[i]], i)]
    {
      SubtreeUnfolds(p, bytes, i);
      SubtreeUnfolds(p, allocations, i);
      var t := PartDeep(s, i, |p|);
      var u := if p[i] == -1 then t else t[p[i] := PlusTotals(t[p[i]], i)];
      forall j | 0 <= j < |p|
        ensures AfterDeep(s, i)[j] == u[j]
      {
        if Below(p, j, i) {
          BelowOrder(p, j, i);
        }
      }
    }

    /** After the pass over the roots every slot holds the totals of its subtree. */
    lemma PartDeepRoots(s: seq<MemoryCategory>)
      requires Valid() && |s| == |p|
      ensures forall j | 0 <= j < |p| :: PartDeep(s, -1, |p|)[j] == WithTotals(s[j], j)
    {
      forall j | 0 <= j < |p|
        ensures PartDeep(s, -1, |p|)[j] == WithTotals(s[j], j)
      {
        BelowEverything(p, j);
      }
    }

    /** `c` carries the shallow values of slot `j`. */
    predicate Carries(c: MemoryCategory, j: nat)
      requires Valid() && j < |p|
    {
      c.liveBytesShallow == bytes[j] && c.liveAllocationsShallow == allocations[j]
    }

    /** Buffer `s` holds the shallow values of the forest and is linked. */
    predicate Fits(s: seq<MemoryCategory>) {
      && Valid() && Linked(p, s)
      && forall j {:trigger Carries(s[j], j)} | 0 <= j < |s| :: Carries(s[j], j)
    }

    lemma PartDeepFits(s: seq<MemoryCategory>, i: int, lo: nat)
      requires Fits(s) && -1 <= i < |p| && lo <= |p|
      ensures Fits(PartDeep(s, i, lo))
    {
      FitsKept(s, PartDeep(s, i, lo));
    }

    /** When no child is left, slot `i` itself holds its totals. */
    lemma PartDeepOwn(s: seq<MemoryCategory>, i: nat)
      requires Valid() && |s| == |p| && i < |p|
      ensures PartDeep(s, i, |p|)[i] == WithTotals(s[i], i)
    {
      SubtreeUnfolds(p, bytes, i);
      SubtreeUnfolds(p, allocations, i);
    }

    /** The links of a slot in a buffer that is linked lead to its first child and to its next sibling. */
    lemma LinksLead(s: seq<MemoryCategory>, j: nat)
      requires Fits(s) && j < |p|
      ensures s[j].firstChild - 1 == NextChild(p, j, 0, |p|)
      ensures p[j] != -1 ==> s[j].nextSibling - 1 == NextChild(p, p[j], j + 1, |p|)
    {
      assert LinkedTo(p, s[j], j, |p|);
    }

    /** One round of the loop over the children of slot `i`: `c` is the child that the cursor points to. */
    lemma ChildRound(s: seq<MemoryCategory>, i: nat, lo: nat, c: nat)
      requires Fits(s) && i < |p| && lo <= |p| && c == NextChild(p, i, lo, |p|)
      ensures i < c < |p| && lo <= c && Fits(PartDeep(s, i, lo))
      ensures PartDeep(s, i, c + 1) == AfterDeep(PartDeep(s, i, lo), c)
      ensures PartDeep(s, i, c + 1)[c].nextSibling - 1 == NextChild(p, i, c + 1, |p|)
    {
      PartDeepNext(s, i, lo);
      PartDeepFits(s, i, lo);
      PartDeepFits(s, i, c + 1);
      LinksLead(PartDeep(s, i, c + 1), c);
    }

    /** One round of the loop over the slots: the recursion runs on a root, other slots are passed over. */
    lemma RootRound(s: seq<MemoryCategory>, i: nat)
      requires Fits(s) && i < |p|
      ensures Fits(PartDeep(s, -1, i))
      ensures PartDeep(s, -1, i + 1)
           == if PartDeep(s, -1, i)[i].parent == 0 then AfterDeep(PartDeep(s, -1, i), i) else PartDeep(s, -1, i)
    {
      PartDeepFits(s, -1, i);
      assert LinkedTo(p, PartDeep(s, -1, i)[i], i, |p|);
      if p[i] == -1 {
        PartDeepChild(s, -1, i);
      } else {
        PartDeepSkip(s, -1, i, i + 1);
      }
    }

    lemma FitsKept(s: seq<MemoryCategory>, t: seq<MemoryCategory>)
      requires Fits(s) && |t| == |s|
      requires forall j | 0 <= j < |s| :: SameButDeep(s[j], t[j])
      ensures Fits(t)
    {
      forall j | 0 <= j < |s|
        ensures LinkedTo(p, t[j], j, |p|) && Carries(t[j], j)
      {
        assert LinkedTo(p, s[j], j, |p|) && Carries(s[j], j);
        assert SameButDeep(s[j], t[j]);
      }
    }
  }

  /**
   The recursion, in place. Whatever the deep counters held before (the tail pointer of the linking
   pass, for one), it leaves in every slot of the subtree the totals of that slot's own subtree, adds
   those of `i` to its parent, and touches nothing else. Children lie behind their parents, so it ends.
   */
  method FillInCategoryDeepCounters(buffer: array<MemoryCategory>, i: nat, ghost f: Forest)
    requires |f.p| <= buffer.Length && f.Fits(buffer[..|f.p|]) && i < |f.p|
    modifies buffer
    ensures buffer[..|f.p|] == f.AfterDeep(old(buffer[..|f.p|]), i)
    ensures forall j | |f.p| <= j < buffer.Length :: buffer[j] == old(buffer[j])
    decreases |f.p| - i, 1
  {
    ghost var s := buffer[..|f.p|];
    buffer[i] := buffer[i].(liveBytesDeep := buffer[i].liveBytesShallow,
                            liveAllocationsDeep := buffer[i].liveAllocationsShallow);
    f.PartDeepStart(s, i);
    FillInChildren(buffer, i, f, s);
    PassBackToParent(buffer, i, f, s);
  }

  /** The loop over the children of slot `i`, along the sibling links. */
  method FillInChildren(buffer: array<MemoryCategory>, i: nat, ghost f: Forest, ghost s: seq<MemoryCategory>)
    requires |f.p| <= buffer.Length && f.Fits(s) && i < |f.p|
    requires buffer[..|f.p|] == f.PartDeep(s, i, 0)
    modifies buffer
    ensures buffer[..|f.p|] == f.PartDeep(s, i, |f.p|)
    ensures forall j | |f.p| <= j < buffer.Length :: buffer[j] == old(buffer[j])
    decreases |f.p| - i, 0
  {
    ghost var n, lo := |f.p|, 0;
    f.PartDeepFits(s, i, 0);
    f.LinksLead(buffer[..n], i);
    var childCursor := buffer[i].firstChild;
    while childCursor != 0
      invariant 0 <= lo <= n
      invariant childCursor - 1 == NextChild(f.p, i, lo, n)
      invariant buffer[..n] == f.PartDeep(s, i, lo)
      invariant forall j | n <= j < buffer.Length :: buffer[j] == old(buffer[j])
      decreases n - lo
    {
      var c := childCursor - 1;
      f.ChildRound(s, i, lo, c);
      lo := c + 1;
      ghost var t, next := f.PartDeep(s, i, lo), NextChild(f.p, i, lo, n);
      assert t[c].nextSibling - 1 == next;
      FillInCategoryDeepCounters(buffer, c, f);
      assert buffer[..n] == t;
      assert buffer[c] == t[c];
      childCursor := buffer[c].nextSibling;
      assert childCursor - 1 == next;
    }
    f.PartDeepNext(s, i, lo);
  }

  /** The end of the recursion: slot `i`, whose children have all reported, reports to its own parent. */
  method PassBackToParent(buffer: array<MemoryCategory>, i: nat, ghost f: Forest, ghost s: seq<MemoryCategory>)
    requires |f.p| <= buffer.Length && f.Fits(s) && i < |f.p|
    requires buffer[..|f.p|] == f.PartDeep(s, i, |f.p|)
    modifies buffer
    ensures buffer[..|f.p|] == f.AfterDeep(s, i)
    ensures forall j | |f.p| <= j < buffer.Length :: buffer[j] == old(buffer[j])
  {
    ghost var n, t := |f.p|, buffer[..|f.p|];
    f.PartDeepEnd(s, i);
    f.PartDeepOwn(s, i);
    assert LinkedTo(f.p, s[i], i, n);
    var category := buffer[i];
    assert category == t[i] == f.WithTotals(s[i], i);
    if category.parent != 0 {
      var parent := category.parent - 1;
      assert buffer[parent] == t[parent];
      buffer[parent] := buffer[parent].(
        liveBytesDeep := Wrap64(buffer[parent].liveBytesDeep + category.liveBytesDeep),
        liveAllocationsDeep := Wrap64(buffer[parent].liveAllocationsDeep + category.liveAllocationsDeep));
      assert buffer[..n] == t[parent := f.PlusTotals(t[parent], i)];
    }
  }

  /** The final loop of the report: the recursion on every root fills in all deep counters. */
  method FillInDeepCounters(buffer: array<MemoryCategory>, count: nat, ghost f: Forest)
    requires count == |f.p| <= buffer.Length && f.Fits(buffer[..count])
    modifies buffer
    ensures f.Fits(buffer[..count])
    ensures forall j | 0 <= j < count :: buffer[j] == f.WithTotals(old(buffer[j]), j)
    ensures forall j | count <= j < buffer.Length :: buffer[j] == old(buffer[j])
  {
    ghost var s := buffer[..count];
    assert s == f.PartDeep(s, -1, 0);
    var i := 0;
    while i < count
      invariant i <= count
      invariant buffer[..count] == f.PartDeep(s, -1, i)
      invariant forall j | count <= j < buffer.Length :: buffer[j] == old(buffer[j])
    {
      ghost var next := f.PartDeep(s, -1, i + 1);
      f.RootRound(s, i);
      assert buffer[i] == buffer[..count][i];
      if buffer[i].parent == 0 {
        FillInCategoryDeepCounters(buffer, i, f);
      }
      assert buffer[..count] == next;
      i := i + 1;
    }
    f.PartDeepFits(s, -1, count);
    f.PartDeepRoots(s);
    assert forall j | 0 <= j < count :: buffer[j] == buffer[..count][j];
  }
}
