/**
 The walk over the registered memory categories (port/common/omrmemcategories.c) and the numbering
 that maps category codes to slots of the mapping array (omr/OMR_TI.cpp).
 */
module CategoryWalk {
  import opened MachineInts

  datatype Category = Category(
    code: nat, name: string, bytes: int, allocations: int, children: seq<Category>)

  /** One call of the walk function. */
  datatype Visit = Visit(code: nat, name: string, bytes: int, allocations: int, isRoot: bool, parentCode: nat)

  // ---------------------------------------------------------------------------------------
  // The walk
  // ---------------------------------------------------------------------------------------

  /** The visits of one category and everything below it, parent first. */
  function VisitTree(t: Category, isRoot: bool, parentCode: nat): (s: seq<Visit>)
    ensures s != [] && s[0] == Visit(t.code, t.name, t.bytes, t.allocations, isRoot, parentCode)
    decreases t, 0
  {
    [Visit(t.code, t.name, t.bytes, t.allocations, isRoot, parentCode)] + VisitAll(t.children, false, t.code)
  }

  function VisitAll(ts: seq<Category>, isRoot: bool, parentCode: nat): seq<Visit>
    decreases ts
  {
    if ts == [] then [] else VisitTree(ts[0], isRoot, parentCode) + VisitAll(ts[1..], isRoot, parentCode)
  }

  /** The recursive walk with a callback that may stop it, as the port library runs it. */
  function WalkTree<S>(t: Category, isRoot: bool, parentCode: nat, f: (S, Visit) -> (S, bool), s: S): (S, bool)
    decreases t, 0
  {
    var (s', keep) := f(s, Visit(t.code, t.name, t.bytes, t.allocations, isRoot, parentCode));
    if keep then WalkAll(t.children, false, t.code, f, s') else (s', false)
  }

  function WalkAll<S>(ts: seq<Category>, isRoot: bool, parentCode: nat, f: (S, Visit) -> (S, bool), s: S): (S, bool)
    decreases ts
  {
    if ts == [] then (s, true)
    else
      var (s', keep) := WalkTree(ts[0], isRoot, parentCode, f, s);
      if keep then WalkAll(ts[1..], isRoot, parentCode, f, s') else (s', false)
  }

  /** Calling back on a list of visits until told to stop. */
  function Iterate<S>(vs: seq<Visit>, f: (S, Visit) -> (S, bool), s: S): (S, bool) {
    if vs == [] then (s, true)
    else
      var (s', keep) := f(s, vs[0]);
      if keep then Iterate(vs[1..], f, s') else (s', false)
  }

  lemma {:induction false} IterateAppend<S>(a: seq<Visit>, b: seq<Visit>, f: (S, Visit) -> (S, bool), s: S)
    ensures Iterate(a + b, f, s) ==
            var (s', keep) := Iterate(a, f, s);
            if keep then Iterate(b, f, s') else (s', false)
  {
    if a == [] {
      assert a + b == b;
    } else {
      assert (a + b)[1..] == a[1..] + b;
      IterateAppend(a[1..], b, f, f(s, a[0]).0);
    }
  }

  /** The recursive walk calls back on exactly the visit list, in order, until stopped. */
  lemma {:induction false} WalkIsIterateTree<S>(t: Category, isRoot: bool, parentCode: nat,
                                                f: (S, Visit) -> (S, bool), s: S)
    ensures WalkTree(t, isRoot, parentCode, f, s) == Iterate(VisitTree(t, isRoot, parentCode), f, s)
    decreases t, 0
  {
    var v := Visit(t.code, t.name, t.bytes, t.allocations, isRoot, parentCode);
    var (s', keep) := f(s, v);
    WalkIsIterate(t.children, false, t.code, f, s');
    assert ([v] + VisitAll(t.children, false, t.code))[1..] == VisitAll(t.children, false, t.code);
  }

  lemma {:induction false} WalkIsIterate<S>(ts: seq<Category>, isRoot: bool, parentCode: nat,
                                            f: (S, Visit) -> (S, bool), s: S)
    ensures WalkAll(ts, isRoot, parentCode, f, s) == Iterate(VisitAll(ts, isRoot, parentCode), f, s)
    decreases ts
  {
    if ts != [] {
      WalkIsIterateTree(ts[0], isRoot, parentCode, f, s);
      var (s', keep) := WalkTree(ts[0], isRoot, parentCode, f, s);
      WalkIsIterate(ts[1..], isRoot, parentCode, f, s');
      IterateAppend(VisitTree(ts[0], isRoot, parentCode), VisitAll(ts[1..], isRoot, parentCode), f, s);
    }
  }

  // ---------------------------------------------------------------------------------------
  // Codes and slots
  // ---------------------------------------------------------------------------------------

  const LANGUAGE_LIMIT: nat := 0x7FFF_FFFF

  /** `0x7FFFFFFF & code` */
  function OmrIndex(code: nat): nat {
    code % TWO31
  }

  function IndexFromCategoryCode(mappingSize: nat, code: nat): (i: nat)
    ensures i < TWO32 || i == code
  {
    if code > LANGUAGE_LIMIT then (mappingSize % TWO32 - 1 - OmrIndex(code)) % TWO32 else code
  }

  function Max(a: nat, b: nat): nat {
    if a > b then a else b
  }

  /** The largest language code among the visits (0 when there is none). */
  function MaxLanguage(vs: seq<Visit>): nat
    decreases |vs|
  {
    if vs == [] then 0
    else
      var n := |vs| - 1;
      if vs[n].code < LANGUAGE_LIMIT then Max(MaxLanguage(vs[..n]), vs[n].code) else MaxLanguage(vs[..n])
  }

  /** The largest OMR index among the visits (0 when there is none). */
  function MaxOmr(vs: seq<Visit>): nat
    decreases |vs|
  {
    if vs == [] then 0
    else
      var n := |vs| - 1;
      if vs[n].code > LANGUAGE_LIMIT then Max(MaxOmr(vs[..n]), OmrIndex(vs[n].code)) else MaxOmr(vs[..n])
  }

  function MappingSize(vs: seq<Visit>): nat {
    MaxLanguage(vs) + 1 + MaxOmr(vs) + 1
  }

  /** The walk that computes the size of the mapping. */
  method CalculateMappingSize(vs: seq<Visit>) returns (size: nat)
    ensures size == MappingSize(vs)
  {
    var maxLanguage, maxOmr := 0, 0;
    for i := 0 to |vs|
      invariant maxLanguage == MaxLanguage(vs[..i]) && maxOmr == MaxOmr(vs[..i])
    {
      assert vs[..i + 1][..i] == vs[..i];
      var code := vs[i].code;
      if code < LANGUAGE_LIMIT {
        maxLanguage := if maxLanguage > code then maxLanguage else code;
      } else if code > LANGUAGE_LIMIT {
        var index := OmrIndex(code);
        maxOmr := if maxOmr > index then maxOmr else index;
      }
    }
    assert vs[..|vs|] == vs;
    size := maxLanguage + 1 + maxOmr + 1;
  }

  /** All codes are 32-bit values other than the one between the two ranges. */
  predicate GoodCodes(vs: seq<Visit>) {
    forall k | 0 <= k < |vs| :: vs[k].code < TWO32 && vs[k].code != LANGUAGE_LIMIT
  }

  lemma {:induction false} MaximaBound(vs: seq<Visit>, k: nat)
    requires k < |vs|
    ensures vs[k].code < LANGUAGE_LIMIT ==> vs[k].code <= MaxLanguage(vs)
    ensures vs[k].code > LANGUAGE_LIMIT ==> OmrIndex(vs[k].code) <= MaxOmr(vs)
    decreases |vs|
  {
    var n := |vs| - 1;
    if k < n {
      MaximaBound(vs[..n], k);
    }
  }

  /** The maxima are reached by walked codes, unless there is no code of the kind. */
  lemma {:induction false} MaximaAttained(vs: seq<Visit>)
    ensures MaxLanguage(vs) == 0 ||
            exists k | 0 <= k < |vs| :: vs[k].code < LANGUAGE_LIMIT && vs[k].code == MaxLanguage(vs)
    ensures MaxOmr(vs) == 0 ||
            exists k | 0 <= k < |vs| :: vs[k].code > LANGUAGE_LIMIT && OmrIndex(vs[k].code) == MaxOmr(vs)
    decreases |vs|
  {
    if vs != [] {
      var n := |vs| - 1;
      MaximaAttained(vs[..n]);
      if MaxLanguage(vs[..n]) != 0 {
        var k :| 0 <= k < n && vs[..n][k].code < LANGUAGE_LIMIT && vs[..n][k].code == MaxLanguage(vs[..n]);
        assert vs[k].code == MaxLanguage(vs[..n]);
      }
      if MaxOmr(vs[..n]) != 0 {
        var k :| 0 <= k < n && vs[..n][k].code > LANGUAGE_LIMIT && OmrIndex(vs[..n][k].code) == MaxOmr(vs[..n]);
        assert OmrIndex(vs[k].code) == MaxOmr(vs[..n]);
      }
    }
  }

  lemma {:induction false} MappingSizeBound(vs: seq<Visit>)
    ensures MaxLanguage(vs) < LANGUAGE_LIMIT && MaxOmr(vs) <= LANGUAGE_LIMIT
    ensures MappingSize(vs) < TWO32
    decreases |vs|
  {
    if vs != [] {
      MappingSizeBound(vs[..|vs| - 1]);
    }
  }

  /**
   The mapping size fits in 32 bits, every walked code has its own slot within the mapping, and two
   walked codes share a slot only if they are equal: language and OMR codes never collide.
   */
  lemma IndexInjective(vs: seq<Visit>, a: nat, b: nat)
    requires GoodCodes(vs) && a < |vs| && b < |vs|
    ensures MappingSize(vs) < TWO32
    ensures IndexFromCategoryCode(MappingSize(vs), vs[a].code) < MappingSize(vs)
    ensures IndexFromCategoryCode(MappingSize(vs), vs[a].code) == IndexFromCategoryCode(MappingSize(vs), vs[b].code)
       <==> vs[a].code == vs[b].code
  {
    MappingSizeBound(vs);
    IndexValue(vs, a);
    IndexValue(vs, b);
    assert vs[a].code == OmrIndex(vs[a].code) + (if vs[a].code > LANGUAGE_LIMIT then TWO31 else 0);
    assert vs[b].code == OmrIndex(vs[b].code) + (if vs[b].code > LANGUAGE_LIMIT then TWO31 else 0);
  }

  lemma IndexValue(vs: seq<Visit>, k: nat)
    requires GoodCodes(vs) && k < |vs|
    ensures
      var i := IndexFromCategoryCode(MappingSize(vs), vs[k].code);
      if vs[k].code < LANGUAGE_LIMIT then i == vs[k].code <= MaxLanguage(vs)
      else i == MappingSize(vs) - 1 - OmrIndex(vs[k].code) && MaxLanguage(vs) < i < MappingSize(vs)
  {
    MappingSizeBound(vs);
    MaximaBound(vs, k);
    if vs[k].code > LANGUAGE_LIMIT {
      OmrIndexValue(MappingSize(vs), vs[k].code);
    }
  }

  lemma OmrIndexValue(size: nat, code: nat)
    requires LANGUAGE_LIMIT < code < TWO32 && OmrIndex(code) < size < TWO32
    ensures OmrIndex(code) == code - TWO31
    ensures IndexFromCategoryCode(size, code) == size - 1 - OmrIndex(code)
  {
    assert code == 1 * TWO31 + (code - TWO31);
    assert 0 <= size - 1 - OmrIndex(code) < TWO32;
  }

  /** The one excluded code: its slot is within the mapping exactly when the other codes make it large enough. */
  lemma ExcludedCodeIndex(vs: seq<Visit>, k: nat)
    requires k < |vs| && vs[k].code == LANGUAGE_LIMIT
    ensures IndexFromCategoryCode(MappingSize(vs), vs[k].code) < MappingSize(vs)
       <==> MaxLanguage(vs) + MaxOmr(vs) >= LANGUAGE_LIMIT - 1
  {
  }

  // ---------------------------------------------------------------------------------------
  // Parents
  // ---------------------------------------------------------------------------------------

  /** The last visit of `code`, or -1. */
  function LastVisit(vs: seq<Visit>, code: nat): (k: int)
    ensures -1 <= k < |vs|
    ensures k >= 0 ==> vs[k].code == code
    decreases |vs|
  {
    if vs == [] then -1
    else if vs[|vs| - 1].code == code then |vs| - 1
    else LastVisit(vs[..|vs| - 1], code)
  }

  /** A non-root names a parent that was visited before it and is not itself. */
  predicate ParentVisited(vs: seq<Visit>, k: nat)
    requires k < |vs|
  {
    vs[k].isRoot || (vs[k].parentCode != vs[k].code && LastVisit(vs[..k], vs[k].parentCode) >= 0)
  }

  /** What the report relies on. */
  predicate ParentsVisited(vs: seq<Visit>) {
    forall k {:trigger ParentVisited(vs, k)} | 0 <= k < |vs| :: ParentVisited(vs, k)
  }

  /** Codes of the visits are all different. */
  predicate DistinctCodes(vs: seq<Visit>) {
    forall a, b | 0 <= a < b < |vs| :: vs[a].code != vs[b].code
  }

  lemma {:induction false} LastVisitFound(vs: seq<Visit>, code: nat, k: nat)
    requires k < |vs| && vs[k].code == code
    ensures LastVisit(vs, code) >= k
    decreases |vs|
  {
    if vs[|vs| - 1].code != code {
      LastVisitFound(vs[..|vs| - 1], code, k);
    }
  }

  /** Every non-root of a list names an earlier member, or `up`. */
  predicate ParentsWithin(vs: seq<Visit>, up: nat) {
    forall k | 0 <= k < |vs| && !vs[k].isRoot ::
      vs[k].parentCode == up || exists j | 0 <= j < k :: vs[j].code == vs[k].parentCode
  }

  lemma ParentsWithinAppend(a: seq<Visit>, b: seq<Visit>, up: nat)
    requires ParentsWithin(a, up) && ParentsWithin(b, up)
    ensures ParentsWithin(a + b, up)
  {
    var c := a + b;
    forall k | 0 <= k < |c| && !c[k].isRoot && c[k].parentCode != up
      ensures exists j | 0 <= j < k :: c[j].code == c[k].parentCode
    {
      if k < |a| {
        var j :| 0 <= j < k && a[j].code == a[k].parentCode;
        assert c[j].code == c[k].parentCode;
      } else {
        var j :| 0 <= j < k - |a| && b[j].code == b[k - |a|].parentCode;
        assert c[|a| + j].code == c[k].parentCode;
      }
    }
  }

  lemma {:induction false} TreeParentsWithin(t: Category, isRoot: bool, up: nat, x: nat)
    requires isRoot || x == up
    ensures ParentsWithin(VisitTree(t, isRoot, up), x)
    decreases t, 0
  {
    var below, all := VisitAll(t.children, false, t.code), VisitTree(t, isRoot, up);
    ForestParentsWithin(t.children, false, t.code, t.code);
    forall k | 0 <= k < |all| && !all[k].isRoot && all[k].parentCode != x
      ensures exists j | 0 <= j < k :: all[j].code == all[k].parentCode
    {
      assert all[k] == below[k - 1];
      if below[k - 1].parentCode == t.code {
        assert all[0].code == all[k].parentCode;
      } else {
        var j :| 0 <= j < k - 1 && below[j].code == below[k - 1].parentCode;
        assert all[j + 1].code == all[k].parentCode;
      }
    }
  }

  lemma {:induction false} ForestParentsWithin(ts: seq<Category>, isRoot: bool, up: nat, x: nat)
    requires isRoot || x == up
    ensures ParentsWithin(VisitAll(ts, isRoot, up), x)
    decreases ts
  {
    if ts != [] {
      TreeParentsWithin(ts[0], isRoot, up, x);
      ForestParentsWithin(ts[1..], isRoot, up, x);
      ParentsWithinAppend(VisitTree(ts[0], isRoot, up), VisitAll(ts[1..], isRoot, up), x);
    }
  }

  function TreeCount(t: Category): nat
    decreases t, 0
  {
    1 + AllCount(t.children)
  }

  function AllCount(ts: seq<Category>): nat
    decreases ts
  {
    if ts == [] then 0 else TreeCount(ts[0]) + AllCount(ts[1..])
  }

  lemma {:induction false} TreeCounted(t: Category, isRoot: bool, up: nat)
    ensures |VisitTree(t, isRoot, up)| == TreeCount(t)
    decreases t, 0
  {
    AllCounted(t.children, false, t.code);
  }

  lemma {:induction false} AllCounted(ts: seq<Category>, isRoot: bool, up: nat)
    ensures |VisitAll(ts, isRoot, up)| == AllCount(ts)
    decreases ts
  {
    if ts != [] {
      TreeCounted(ts[0], isRoot, up);
      AllCounted(ts[1..], isRoot, up);
    }
  }

  // ---------------------------------------------------------------------------------------
  // Categories that contain themselves
  // ---------------------------------------------------------------------------------------

  predicate NoVisitOf(vs: seq<Visit>, code: nat) {
    forall k | 0 <= k < |vs| :: vs[k].code != code
  }

  /** No category has its own code below it. */
  predicate Acyclic(t: Category)
    decreases t, 0
  {
    NoVisitOf(VisitAll(t.children, false, t.code), t.code) && AllAcyclic(t.children)
  }

  predicate AllAcyclic(ts: seq<Category>)
    decreases ts
  {
    ts == [] || (Acyclic(ts[0]) && AllAcyclic(ts[1..]))
  }

  /** Children are looked up by code: the same code has the same children everywhere. */
  predicate Registered(ts: seq<Category>, table: map<nat, seq<Category>>)
    decreases ts
  {
    ts == [] ||
    (ts[0].code in table && ts[0].children == table[ts[0].code] &&
     Registered(ts[0].children, table) && Registered(ts[1..], table))
  }

  lemma {:induction false} RegisteredSmaller(ts: seq<Category>, table: map<nat, seq<Category>>, isRoot: bool, up: nat,
                                             k: nat)
    requires Registered(ts, table) && k < |VisitAll(ts, isRoot, up)|
    ensures var code := VisitAll(ts, isRoot, up)[k].code; code in table && AllCount(table[code]) < AllCount(ts)
    decreases ts
  {
    var first := VisitTree(ts[0], isRoot, up);
    if k >= |first| {
      RegisteredSmaller(ts[1..], table, isRoot, up, k - |first|);
    } else if k > 0 {
      RegisteredSmaller(ts[0].children, table, false, ts[0].code, k - 1);
    }
  }

  /** A walk that ends, with children looked up by code, never meets a category below itself. */
  lemma {:induction false} RegisteredAcyclic(ts: seq<Category>, table: map<nat, seq<Category>>)
    requires Registered(ts, table)
    ensures AllAcyclic(ts)
    decreases ts
  {
    if ts != [] {
      var below := VisitAll(ts[0].children, false, ts[0].code);
      forall k | 0 <= k < |below|
        ensures below[k].code != ts[0].code
      {
        RegisteredSmaller(ts[0].children, table, false, ts[0].code, k);
      }
      RegisteredAcyclic(ts[0].children, table);
      RegisteredAcyclic(ts[1..], table);
    }
  }

  /** No visit is its own parent, and none of them is `up` unless they are roots. */
  lemma {:induction false} NeverOwnParent(ts: seq<Category>, isRoot: bool, up: nat)
    requires AllAcyclic(ts) && (isRoot || NoVisitOf(VisitAll(ts, isRoot, up), up))
    ensures forall v | v in VisitAll(ts, isRoot, up) :: v.isRoot || v.parentCode != v.code
    decreases ts
  {
    if ts != [] {
      var vs, first, rest := VisitAll(ts, isRoot, up), VisitTree(ts[0], isRoot, up), VisitAll(ts[1..], isRoot, up);
      var below := VisitAll(ts[0].children, false, ts[0].code);
      assert forall k | 0 <= k < |rest| :: rest[k] == vs[|first| + k];
      NeverOwnParent(ts[1..], isRoot, up);
      NeverOwnParent(ts[0].children, false, ts[0].code);
      assert forall v | v in vs :: v in rest || v in below || v == first[0];
    }
  }

  /** The walk of a forest in which no category contains itself visits every parent before its children. */
  lemma WalkVisitsParentsFirst(roots: seq<Category>)
    requires AllAcyclic(roots)
    ensures ParentsVisited(VisitAll(roots, true, 0))
  {
    var vs := VisitAll(roots, true, 0);
    NeverOwnParent(roots, true, 0);
    forall k | 0 <= k < |vs|
      ensures ParentVisited(vs, k)
    {
      if !vs[k].isRoot {
        ForestParentsWithin(roots, true, 0, vs[k].parentCode + 1);
        var j :| 0 <= j < k && vs[j].code == vs[k].parentCode;
        LastVisitFound(vs[..k], vs[k].parentCode, j);
      }
    }
  }
}
