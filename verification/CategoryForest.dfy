/**
 Forests stored as a vector of parent slots, as the memory-category report stores them in its flat
 buffer (omr/OMR_TI.cpp): `p[j]` is the slot of the parent of slot `j`, or -1 for a root. Slot -1
 doubles as a common ancestor of all roots.
 */
module CategoryForest {

  /** Every parent is written before its children. */
  predicate ParentFirst(p: seq<int>) {
    forall j | 0 <= j < |p| :: -1 <= p[j] < j
  }

  /** Slot `j` lies in the subtree of slot `i`. */
  predicate Below(p: seq<int>, j: int, i: int)
    requires ParentFirst(p) && -1 <= j < |p|
    decreases j
  {
    j == i || (j >= 0 && Below(p, p[j], i))
  }

  function Keep(b: bool, x: int): int {
    if b then x else 0
  }

  /** Sum of `v` over the slots before `n` that lie in the subtree of `i`. */
  function SubtreeSum(p: seq<int>, v: seq<int>, i: int, n: nat): int
    requires ParentFirst(p) && |v| == |p| && n <= |p|
  {
    if n == 0 then 0
    else SubtreeSum(p, v, i, n - 1) + Keep(Below(p, n - 1, i), v[n - 1])
  }

  /** The subtree sums of the children of `i` before slot `k`, each counted up to slot `n`. */
  function ChildrenSum(p: seq<int>, v: seq<int>, i: int, k: nat, n: nat): int
    requires ParentFirst(p) && |v| == |p| && n <= |p| && k <= |p|
  {
    if k == 0 then 0
    else ChildrenSum(p, v, i, k - 1, n) + Keep(p[k - 1] == i, SubtreeSum(p, v, k - 1, n))
  }

  function Sum(v: seq<int>, n: nat): int
    requires n <= |v|
  {
    if n == 0 then 0 else Sum(v, n - 1) + v[n - 1]
  }

  // ---------------------------------------------------------------------------------------
  // Each slot belongs to exactly one child subtree
  // ---------------------------------------------------------------------------------------

  lemma {:induction false} BelowOrder(p: seq<int>, j: int, i: int)
    requires ParentFirst(p) && -1 <= j < |p| && Below(p, j, i)
    ensures i <= j
    decreases j
  {
    if j != i {
      BelowOrder(p, p[j], i);
    }
  }

  /** The child of `i` through which a proper descendant `j` is reached. */
  function Branch(p: seq<int>, j: int, i: int): (c: nat)
    requires ParentFirst(p) && -1 <= i && 0 <= j < |p| && j != i && Below(p, j, i)
    ensures c < |p| && p[c] == i && Below(p, j, c)
    decreases j
  {
    if p[j] == i then j
    else assert p[j] == -1 ==> !Below(p, p[j], i); Branch(p, p[j], i)
  }

  lemma {:induction false} BranchUnique(p: seq<int>, j: int, i: int, c: nat)
    requires ParentFirst(p) && -1 <= i && 0 <= j < |p| && c < |p| && p[c] == i && Below(p, j, c)
    ensures j != i && Below(p, j, i) && Branch(p, j, i) == c
    decreases j
  {
    BelowOrder(p, j, c);
    if j != c {
      BranchUnique(p, p[j], i, c);
      BelowOrder(p, p[j], c);
    }
  }

  /** What slot `j` contributes to the children of `i` before slot `k`. */
  function Contribution(p: seq<int>, x: int, i: int, j: nat, k: nat): int
    requires ParentFirst(p) && j < |p| && k <= |p|
  {
    if k == 0 then 0
    else Contribution(p, x, i, j, k - 1) + Keep(p[k - 1] == i && Below(p, j, k - 1), x)
  }

  lemma {:induction false} ContributionCounted(p: seq<int>, x: int, i: int, j: nat, k: nat)
    requires ParentFirst(p) && -1 <= i && j < |p| && k <= |p|
    ensures Contribution(p, x, i, j, k) == Keep(j != i && Below(p, j, i) && Branch(p, j, i) < k, x)
    decreases k
  {
    if k > 0 {
      ContributionCounted(p, x, i, j, k - 1);
      if p[k - 1] == i && Below(p, j, k - 1) {
        BranchUnique(p, j, i, k - 1);
      }
    }
  }

  /** One more column: extending the subtree sums of the children by slot `n`. */
  lemma {:induction false} ChildrenSumColumn(p: seq<int>, v: seq<int>, i: int, k: nat, n: nat)
    requires ParentFirst(p) && |v| == |p| && n < |p| && k <= |p|
    ensures ChildrenSum(p, v, i, k, n + 1) == ChildrenSum(p, v, i, k, n) + Contribution(p, v[n], i, n, k)
    decreases k
  {
    if k > 0 {
      ChildrenSumColumn(p, v, i, k - 1, n);
    }
  }

  lemma {:induction false} ChildrenSumZero(p: seq<int>, v: seq<int>, i: int, k: nat)
    requires ParentFirst(p) && |v| == |p| && k <= |p|
    ensures ChildrenSum(p, v, i, k, 0) == 0
    decreases k
  {
    if k > 0 {
      ChildrenSumZero(p, v, i, k - 1);
    }
  }

  lemma {:induction false} SubtreeColumns(p: seq<int>, v: seq<int>, i: int, n: nat)
    requires ParentFirst(p) && |v| == |p| && n <= |p| && -1 <= i < |p|
    ensures SubtreeSum(p, v, i, n) == Keep(0 <= i < n, if i >= 0 then v[i] else 0) + ChildrenSum(p, v, i, |p|, n)
    decreases n
  {
    if n == 0 {
      ChildrenSumZero(p, v, i, |p|);
    } else {
      SubtreeColumns(p, v, i, n - 1);
      ChildrenSumColumn(p, v, i, |p|, n - 1);
      ContributionCounted(p, v[n - 1], i, n - 1, |p|);
    }
  }

  /** The subtree of a slot is the slot itself plus the subtrees of its children. */
  lemma SubtreeUnfolds(p: seq<int>, v: seq<int>, i: nat)
    requires ParentFirst(p) && |v| == |p| && i < |p|
    ensures SubtreeSum(p, v, i, |p|) == v[i] + ChildrenSum(p, v, i, |p|, |p|)
  {
    SubtreeColumns(p, v, i, |p|);
  }

  /** Conservation: the subtree sums of the roots add up to the sum of all slots. */
  lemma RootsCoverEverything(p: seq<int>, v: seq<int>)
    requires ParentFirst(p) && |v| == |p|
    ensures ChildrenSum(p, v, -1, |p|, |p|) == Sum(v, |p|)
  {
    SubtreeColumns(p, v, -1, |p|);
    SumOfAll(p, v, |p|);
  }

  lemma {:induction false} BelowEverything(p: seq<int>, j: int)
    requires ParentFirst(p) && -1 <= j < |p|
    ensures Below(p, j, -1)
    decreases j
  {
    if j >= 0 {
      BelowEverything(p, p[j]);
    }
  }

  lemma {:induction false} SumOfAll(p: seq<int>, v: seq<int>, n: nat)
    requires ParentFirst(p) && |v| == |p| && n <= |p|
    ensures SubtreeSum(p, v, -1, n) == Sum(v, n)
    decreases n
  {
    if n > 0 {
      SumOfAll(p, v, n - 1);
      BelowEverything(p, n - 1);
    }
  }

  // ---------------------------------------------------------------------------------------
  // Child lists
  // ---------------------------------------------------------------------------------------

  /** The least child of `i` in the slots from `lo` up to `n`, or -1. */
  function NextChild(p: seq<int>, i: int, lo: nat, n: nat): (c: int)
    requires n <= |p|
    ensures c == -1 || (lo <= c < n && p[c] == i)
    decreases n - lo
  {
    if lo >= n then -1
    else if p[lo] == i then lo
    else NextChild(p, i, lo + 1, n)
  }

  /** The greatest child of `i` before slot `n`, or -1. */
  function LastChild(p: seq<int>, i: int, n: nat): (c: int)
    requires n <= |p|
    ensures c == -1 || (0 <= c < n && p[c] == i)
  {
    if n == 0 then -1
    else if p[n - 1] == i then n - 1
    else LastChild(p, i, n - 1)
  }

  /** The children of `i` from slot `lo` up to `n`, in slot order. */
  function Children(p: seq<int>, i: int, lo: nat, n: nat): (s: seq<nat>)
    requires n <= |p|
    decreases n - lo
  {
    if lo >= n then []
    else if p[lo] == i then [lo] + Children(p, i, lo + 1, n)
    else Children(p, i, lo + 1, n)
  }

  lemma {:induction false} NextChildExtend(p: seq<int>, i: int, lo: nat, n: nat)
    requires n < |p|
    ensures NextChild(p, i, lo, n + 1)
         == if NextChild(p, i, lo, n) != -1 then NextChild(p, i, lo, n)
            else if lo <= n && p[n] == i then n else -1
    decreases n - lo
  {
    if lo < n && p[lo] != i {
      NextChildExtend(p, i, lo + 1, n);
    }
  }

  /** There is a child at or after `lo` exactly when the last child is. */
  lemma {:induction false} LastChildBounds(p: seq<int>, i: int, lo: nat, n: nat)
    requires n <= |p|
    ensures NextChild(p, i, lo, n) != -1 <==> LastChild(p, i, n) >= lo
    decreases n
  {
    if n > 0 {
      LastChildBounds(p, i, lo, n - 1);
      NextChildExtend(p, i, lo, n - 1);
    }
  }

  /** No child of `i` lies between `lo` and the next one. */
  lemma {:induction false} NextChildLeast(p: seq<int>, i: int, lo: nat, n: nat)
    requires n <= |p|
    ensures var c := NextChild(p, i, lo, n);
            forall k | lo <= k < (if c == -1 then n else c) :: p[k] != i
    decreases n - lo
  {
    if lo < n && p[lo] != i {
      NextChildLeast(p, i, lo + 1, n);
    }
  }

  lemma {:induction false} ChildrenMembers(p: seq<int>, i: int, lo: nat, n: nat, c: nat)
    requires n <= |p|
    ensures c in Children(p, i, lo, n) <==> lo <= c < n && p[c] == i
    decreases n - lo
  {
    if lo < n {
      ChildrenMembers(p, i, lo + 1, n, c);
    }
  }

  /** The children come in increasing order, so none is listed twice. */
  lemma {:induction false} ChildrenIncrease(p: seq<int>, i: int, lo: nat, n: nat, a: nat, b: nat)
    requires n <= |p| && a < b < |Children(p, i, lo, n)|
    ensures lo <= Children(p, i, lo, n)[a] < Children(p, i, lo, n)[b]
    decreases n - lo
  {
    var s := Children(p, i, lo, n);
    if p[lo] != i {
      ChildrenIncrease(p, i, lo + 1, n, a, b);
    } else if a == 0 {
      ChildrenMembers(p, i, lo + 1, n, s[b]);
      assert s[b] in Children(p, i, lo + 1, n);
    } else {
      ChildrenIncrease(p, i, lo + 1, n, a - 1, b - 1);
    }
  }

  lemma {:induction false} ChildrenFromNext(p: seq<int>, i: int, lo: nat, n: nat)
    requires n <= |p|
    ensures var c := NextChild(p, i, lo, n);
            Children(p, i, lo, n) == if c == -1 then [] else [c] + Children(p, i, c + 1, n)
    decreases n - lo
  {
    if lo < n && p[lo] != i {
      ChildrenFromNext(p, i, lo + 1, n);
    }
  }
}
