/**
 The circular doubly linked list macros of include_core/omrlinkedlist.h. The link fields of all
 elements in memory are two maps, `next` and `prev`; an element whose memory has been freed is in
 neither, so that reading or writing a link of a freed element is an error in the model.
 */
module CircularList {
  import opened MachineInts
  import opened Options

  // ---------------------------------------------------------------------------------------
  // Sequence operations
  // ---------------------------------------------------------------------------------------

  predicate Distinct<T(==)>(s: seq<T>) {
    forall i, j | 0 <= i < j < |s| :: s[i] != s[j]
  }

  function IndexOf<T(==)>(s: seq<T>, x: T): (i: nat)
    requires x in s
    ensures i < |s| && s[i] == x
  {
    if s[0] == x then 0 else 1 + IndexOf(s[1..], x)
  }

  function Insert<T>(s: seq<T>, i: nat, x: T): seq<T>
    requires i <= |s|
  {
    s[..i] + [x] + s[i..]
  }

  function Delete<T>(s: seq<T>, i: nat): seq<T>
    requires i < |s|
  {
    s[..i] + s[i + 1..]
  }

  lemma DeleteMembers<T>(s: seq<T>, i: nat)
    requires i < |s| && Distinct(s)
    ensures Distinct(Delete(s, i))
    ensures forall x :: x in Delete(s, i) <==> x in s && x != s[i]
  {
    var d := Delete(s, i);
    forall x | x in s && x != s[i]
      ensures x in d
    {
      var j :| 0 <= j < |s| && s[j] == x;
      assert d[if j < i then j else j - 1] == x;
    }
  }

  function Reversed<T>(s: seq<T>): (r: seq<T>)
    ensures |r| == |s| && forall i | 0 <= i < |s| :: r[i] == s[|s| - 1 - i]
  {
    seq(|s|, i requires 0 <= i < |s| => s[|s| - 1 - i])
  }

  lemma {:induction false} BelowBound(xs: set<nat>, n: nat)
    requires forall x | x in xs :: 0 < x <= n
    ensures |xs| <= n
    decreases n
  {
    if n == 0 {
      assert xs == {};
    } else {
      BelowBound(xs - {n}, n - 1);
    }
  }

  lemma {:induction false} DistinctSize(s: seq<Address>)
    requires Distinct(s)
    ensures |set x: nat | x in s| == |s|
  {
    if s != [] {
      var n := |s| - 1;
      DistinctSize(s[..n]);
      assert s == s[..n] + [s[n]] && s[n] !in s[..n];
      assert (set x: nat | x in s) == (set x: nat | x in s[..n]) + {s[n]};
    }
  }

  /** There are fewer distinct addresses than values of a word, so they can be counted in one. */
  lemma DistinctFits(s: seq<Address>)
    requires Distinct(s)
    ensures |s| < TWO64
  {
    DistinctSize(s);
    BelowBound((set x: nat | x in s), TWO64 - 1);
  }

  // ---------------------------------------------------------------------------------------
  // The links of a circle
  // ---------------------------------------------------------------------------------------

  function Succ(i: nat, n: nat): (j: nat)
    requires i < n
    ensures j < n
  {
    if i + 1 == n then 0 else i + 1
  }

  function Pred(i: nat, n: nat): (j: nat)
    requires i < n
    ensures j < n && Succ(j, n) == i
  {
    if i == 0 then n - 1 else i - 1
  }

  predicate LinkedAt<T(==)>(s: seq<T>, next: map<T, T>, prev: map<T, T>, i: nat)
    requires i < |s|
  {
    && s[i] in next && next[s[i]] == s[Succ(i, |s|)]
    && s[i] in prev && prev[s[i]] == s[Pred(i, |s|)]
  }

  /** The links lead once around `s` in both directions. */
  predicate Circle<T(==)>(s: seq<T>, next: map<T, T>, prev: map<T, T>) {
    Distinct(s) && forall i | 0 <= i < |s| :: LinkedAt(s, next, prev, i)
  }

  /** Links that form a circle stay within it and are mutually inverse. */
  lemma LinksInverse<T>(s: seq<T>, next: map<T, T>, prev: map<T, T>, x: T)
    requires Circle(s, next, prev) && x in s
    ensures x in next && next[x] in s && next[x] in next && next[x] in prev && prev[next[x]] == x
    ensures x in prev && prev[x] in s && prev[x] in next && prev[x] in prev && next[prev[x]] == x
  {
    var i := IndexOf(s, x);
    assert LinkedAt(s, next, prev, i);
    assert LinkedAt(s, next, prev, Succ(i, |s|));
    assert LinkedAt(s, next, prev, Pred(i, |s|));
  }

  /** The four assignments of an insertion between the neighbours `s[i-1]` and `s[i]`. */
  lemma InsertKeepsCircle<T>(s: seq<T>, i: nat, x: T, next: map<T, T>, prev: map<T, T>)
    requires Circle(s, next, prev) && s != [] && i <= |s| && x !in s
    ensures
      var before := s[if i == 0 then |s| - 1 else i - 1];
      var after := s[if i == |s| then 0 else i];
      Circle(Insert(s, i, x), next[x := after][before := x], prev[x := before][after := x])
  {
    var n := |s|;
    var r := Insert(s, i, x);
    var before := s[if i == 0 then n - 1 else i - 1];
    var after := s[if i == n then 0 else i];
    assert forall j | 0 <= j < n + 1 :: r[j] == if j < i then s[j] else if j == i then x else s[j - 1];
    var nx := next[x := after][before := x];
    var pv := prev[x := before][after := x];
    forall j | 0 <= j < n + 1
      ensures LinkedAt(r, nx, pv, j)
    {
      if j != i {
        assert LinkedAt(s, next, prev, if j < i then j else j - 1);
      }
    }
  }

  /** The neighbours in `Delete(s, i)` of the element that has index `k` in `s`. */
  lemma DeletedNeighbours<T>(s: seq<T>, i: nat, k: nat)
    requires i < |s| && k < |s| && k != i
    ensures
      var r, j := Delete(s, i), if k < i then k else k - 1;
      && r[j] == s[k]
      && r[Succ(j, |r|)] == s[if Succ(k, |s|) == i then Succ(i, |s|) else Succ(k, |s|)]
      && r[Pred(j, |r|)] == s[if Pred(k, |s|) == i then Pred(i, |s|) else Pred(k, |s|)]
  {
  }

  lemma DeletedAt<T>(s: seq<T>, i: nat, k: nat, next: map<T, T>, prev: map<T, T>)
    requires Distinct(s) && i < |s| && k < |s| && k != i && LinkedAt(s, next, prev, k)
    ensures
      var before, after := s[Pred(i, |s|)], s[Succ(i, |s|)];
      LinkedAt(Delete(s, i), next[before := after], prev[after := before], if k < i then k else k - 1)
  {
    DeletedNeighbours(s, i, k);
    assert s[k] == s[Pred(i, |s|)] <==> Succ(k, |s|) == i;
    assert s[k] == s[Succ(i, |s|)] <==> Pred(k, |s|) == i;
  }

  /** The two assignments of a removal. */
  lemma DeleteKeepsCircle<T>(s: seq<T>, i: nat, next: map<T, T>, prev: map<T, T>)
    requires Circle(s, next, prev) && i < |s| && |s| >= 2
    ensures
      var before, after := s[Pred(i, |s|)], s[Succ(i, |s|)];
      Circle(Delete(s, i), next[before := after], prev[after := before])
  {
    var r := Delete(s, i);
    assert forall j | 0 <= j < |r| :: r[j] == if j < i then s[j] else s[j + 1];
    var before, after := s[Pred(i, |s|)], s[Succ(i, |s|)];
    var nx, pv := next[before := after], prev[after := before];
    forall j | 0 <= j < |r|
      ensures LinkedAt(r, nx, pv, j)
    {
      var k := if j < i then j else j + 1;
      assert LinkedAt(s, next, prev, k);
      DeletedAt(s, i, k, next, prev);
    }
  }

  /**
   The links that an element off the list still has lead to elements in memory, and the removal would
   assign to a listed neighbour only what it already holds.
   */
  predicate HarmlessOff<T(==)>(s: seq<T>, next: map<T, T>, prev: map<T, T>, x: T) {
    && x in next && x in prev && prev[x] in next && next[x] in prev
    && (prev[x] in s ==> next[prev[x]] == next[x])
    && (next[x] in s ==> prev[next[x]] == prev[x])
  }

  /** Removing an element that is not on the list keeps the circle exactly when its old links are harmless. */
  lemma RemoveOffList<T>(s: seq<T>, next: map<T, T>, prev: map<T, T>, x: T)
    requires Circle(s, next, prev) && x !in s && x in next && x in prev && prev[x] in next && next[x] in prev
    ensures Circle(s, next[prev[x] := next[x]], prev[next[x] := prev[x]]) <==> HarmlessOff(s, next, prev, x)
  {
    var nx, pv := next[prev[x] := next[x]], prev[next[x] := prev[x]];
    if Circle(s, nx, pv) {
      if prev[x] in s {
        var i := IndexOf(s, prev[x]);
        assert LinkedAt(s, next, prev, i) && LinkedAt(s, nx, pv, i);
      }
      if next[x] in s {
        var i := IndexOf(s, next[x]);
        assert LinkedAt(s, next, prev, i) && LinkedAt(s, nx, pv, i);
      }
    }
    if HarmlessOff(s, next, prev, x) {
      forall i | 0 <= i < |s|
        ensures LinkedAt(s, nx, pv, i)
      {
        assert LinkedAt(s, next, prev, i);
      }
    }
  }

  /** An element that was the only one of its list when it was removed still links to itself. */
  predicate SelfLinked<T(==)>(next: map<T, T>, prev: map<T, T>, x: T) {
    x in next && next[x] == x && x in prev && prev[x] == x
  }

  /** The links `nx` and `pv` keep every element off `s` that links to itself. */
  predicate KeepsSelfLinks<T(==)>(s: seq<T>, next: map<T, T>, prev: map<T, T>, nx: map<T, T>, pv: map<T, T>) {
    forall x | x in next && x !in s :: SelfLinked(next, prev, x) ==> SelfLinked(nx, pv, x)
  }

  /** Such an element can be removed again at any time. */
  lemma SelfLinkedHarmless<T>(s: seq<T>, next: map<T, T>, prev: map<T, T>, x: T)
    requires SelfLinked(next, prev, x) && x !in s
    ensures HarmlessOff(s, next, prev, x)
  {
  }

  /** The links and the root when a listed element is removed. */
  lemma RemovalLinks<T>(s: seq<T>, next: map<T, T>, prev: map<T, T>, x: T)
    requires Circle(s, next, prev) && x in s
    ensures x in next && x in prev && prev[x] in next && next[x] in prev
    ensures prev[x] in s && next[x] in s && (s == [x] ==> SelfLinked(next, prev, x))
    ensures
      var r := Delete(s, IndexOf(s, x));
      && Circle(r, next[prev[x] := next[x]], prev[next[x] := prev[x]])
      && (next[x] == x <==> r == [])
      && (r != [] ==> r[0] == if s[0] == x then next[x] else s[0])
  {
    var i := IndexOf(s, x);
    LinksInverse(s, next, prev, x);
    assert LinkedAt(s, next, prev, i);
    if |s| >= 2 {
      DeleteKeepsCircle(s, i, next, prev);
      assert Succ(i, |s|) != i && s[Succ(i, |s|)] != s[i];
    }
  }

  lemma RemoveFirstLinks<T>(s: seq<T>, next: map<T, T>, prev: map<T, T>)
    requires Circle(s, next, prev) && s != []
    ensures s[0] in next && s[0] in prev
    ensures next[s[0]] == s[0] <==> |s| == 1
    ensures |s| >= 2 ==>
              && next[s[0]] == s[1]
              && Circle(s[1..], next[prev[s[0]] := next[s[0]]], prev[next[s[0]] := prev[s[0]]])
  {
    assert LinkedAt(s, next, prev, 0);
    if |s| >= 2 {
      DeleteKeepsCircle(s, 0, next, prev);
      assert Delete(s, 0) == s[1..];
    }
  }

  // ---------------------------------------------------------------------------------------
  // The macros
  // ---------------------------------------------------------------------------------------

  datatype Command<T> =
    | DoAddAfter(after: T, element: T)
    | DoAddBefore(before: T, element: T)
    | DoAddFirst(element: T)
    | DoAddLast(element: T)
    | DoRemove(element: T)
    | DoRemoveFirst

  predicate Legal<T(==)>(s: seq<T>, c: Command<T>) {
    match c
    case DoAddAfter(after, e) => after in s && e !in s
    case DoAddBefore(before, e) => before in s && e !in s
    case DoAddFirst(e) => e !in s
    case DoAddLast(e) => e !in s
    case DoRemove(e) => e in s
    case DoRemoveFirst => s != []
  }

  /** The meaning of a macro on the sequence of elements. */
  function Apply<T(==)>(s: seq<T>, c: Command<T>): seq<T>
    requires Legal(s, c)
  {
    match c
    case DoAddAfter(after, e) => Insert(s, IndexOf(s, after) + 1, e)
    case DoAddBefore(before, e) => Insert(s, IndexOf(s, before), e)
    case DoAddFirst(e) => [e] + s
    case DoAddLast(e) => s + [e]
    case DoRemove(e) => Delete(s, IndexOf(s, e))
    case DoRemoveFirst => s[1..]
  }

  /** `x` stands directly before `y`. */
  predicate Adjacent<T(==)>(s: seq<T>, x: T, y: T) {
    exists i | 0 <= i < |s| - 1 :: s[i] == x && s[i + 1] == y
  }

  /** `r` is `s` with `x` put in somewhere. */
  predicate Extends<T(==)>(r: seq<T>, s: seq<T>, x: T) {
    exists i | 0 <= i <= |s| :: r == Insert(s, i, x)
  }

  /**
   What each macro does to the sequence: an addition keeps the order of the others and places the element
   where its name says, a removal takes exactly that element out.
   */
  lemma ApplyPlaces<T>(s: seq<T>, c: Command<T>)
    requires Legal(s, c)
    ensures
      var r := Apply(s, c);
      match c
      case DoAddAfter(after, e) => Extends(r, s, e) && Adjacent(r, after, e)
      case DoAddBefore(before, e) => Extends(r, s, e) && Adjacent(r, e, before)
      case DoAddFirst(e) => Extends(r, s, e) && r[0] == e
      case DoAddLast(e) => Extends(r, s, e) && r[|r| - 1] == e
      case DoRemove(e) => Extends(s, r, e)
      case DoRemoveFirst => Extends(s, r, s[0]) && s == [s[0]] + r
  {
    var r := Apply(s, c);
    match c
    case DoAddAfter(after, e) =>
      var i := IndexOf(s, after);
      assert r[i] == after && r[i + 1] == e;
    case DoAddBefore(before, e) =>
      var i := IndexOf(s, before);
      assert r[i] == e && r[i + 1] == before;
    case DoAddFirst(e) => assert r == Insert(s, 0, e);
    case DoAddLast(e) => assert r == Insert(s, |s|, e);
    case DoRemove(e) => assert s == Insert(r, IndexOf(s, e), e);
    case DoRemoveFirst => assert s == Insert(r, 0, s[0]);
  }

  predicate LegalScript<T(==)>(s: seq<T>, script: seq<Command<T>>)
    decreases |script|
  {
    script == [] || (Legal(s, script[0]) && LegalScript(Apply(s, script[0]), script[1..]))
  }

  function ApplyAll<T(==)>(s: seq<T>, script: seq<Command<T>>): seq<T>
    requires LegalScript(s, script)
    decreases |script|
  {
    if script == [] then s else ApplyAll(Apply(s, script[0]), script[1..])
  }

  class LinkedList<T(==)> {
    var root: Option<T>
    var next: map<T, T>
    var prev: map<T, T>
    /** The elements in list order, starting at the root. */
    ghost var elems: seq<T>

    ghost predicate Valid()
      reads this
    {
      && Circle(elems, next, prev)
      && root == (if elems == [] then None else Some(elems[0]))
    }

    constructor ()
      ensures Valid() && elems == []
    {
      root, next, prev, elems := None, map[], map[], [];
    }

    method AddAfter(after: T, element: T)
      requires Valid() && after in elems && element !in elems
      modifies this
      ensures Valid() && elems == old(Apply(elems, DoAddAfter(after, element)))
      ensures next.Keys == old(next.Keys) + {element} && prev.Keys == old(prev.Keys) + {element}
    {
      ghost var i := IndexOf(elems, after);
      LinksInverse(elems, next, prev, after);
      assert LinkedAt(elems, next, prev, i);
      InsertKeepsCircle(elems, i + 1, element, next, prev);
      prev := prev[element := after];
      next := next[element := next[after]];
      prev := prev[next[element] := element];
      next := next[after := element];
      elems := Insert(elems, i + 1, element);
    }

    method AddBefore(before: T, element: T)
      requires Valid() && before in elems && element !in elems
      modifies this
      ensures Valid() && elems == old(Apply(elems, DoAddBefore(before, element)))
      ensures next.Keys == old(next.Keys) + {element} && prev.Keys == old(prev.Keys) + {element}
    {
      ghost var i := IndexOf(elems, before);
      LinksInverse(elems, next, prev, before);
      assert LinkedAt(elems, next, prev, i);
      InsertKeepsCircle(elems, i, element, next, prev);
      next := next[element := before];
      prev := prev[element := prev[before]];
      next := next[prev[element] := element];
      prev := prev[before := element];
      if Some(before) == root {
        root := Some(element);
      }
      elems := Insert(elems, i, element);
    }

    method AddFirst(element: T)
      requires Valid() && element !in elems
      modifies this
      ensures Valid() && elems == [element] + old(elems)
      ensures next.Keys == old(next.Keys) + {element} && prev.Keys == old(prev.Keys) + {element}
    {
      if root == None {
        prev := prev[element := element];
        next := next[element := element];
        root := Some(element);
        elems := [element];
      } else {
        AddBefore(root.value, element);
      }
    }

    method AddLast(element: T)
      requires Valid() && element !in elems
      modifies this
      ensures Valid() && elems == old(elems) + [element]
      ensures next.Keys == old(next.Keys) + {element} && prev.Keys == old(prev.Keys) + {element}
      ensures KeepsSelfLinks(elems, old(next), old(prev), next, prev)
    {
      if root == None {
        prev := prev[element := element];
        next := next[element := element];
        root := Some(element);
        elems := [element];
      } else {
        LinksInverse(elems, next, prev, root.value);
        assert LinkedAt(elems, next, prev, 0);
        InsertKeepsCircle(elems, |elems|, element, next, prev);
        assert Insert(elems, |elems|, element) == elems + [element];
        next := next[element := root.value];
        prev := prev[element := prev[root.value]];
        next := next[prev[element] := element];
        prev := prev[root.value := element];
        elems := elems + [element];
      }
    }

    /** The macro may be used on `element` although it is not on the list. */
    ghost predicate Harmless(element: T)
      reads this
    {
      HarmlessOff(elems, next, prev, element)
    }

    /** Takes an element off the list; one that is not on it leaves the list as it is. */
    method Remove(element: T)
      requires Valid() && (element in elems || Harmless(element))
      modifies this
      ensures Valid()
      ensures elems == if element in old(elems) then old(Apply(elems, DoRemove(element))) else old(elems)
      ensures next.Keys == old(next.Keys) && prev.Keys == old(prev.Keys)
      ensures Harmless(element)
      ensures old(elems) == [element] ==> SelfLinked(next, prev, element)
      ensures element in old(elems) || old(SelfLinked(next, prev, element)) ==>
                KeepsSelfLinks(old(elems), old(next), old(prev), next, prev)
    {
      if element in elems {
        RemovalLinks(elems, next, prev, element);
      } else {
        RemoveOffList(elems, next, prev, element);
      }
      RemoveLinks(element);
      elems := if element in elems then Delete(elems, IndexOf(elems, element)) else elems;
    }

    /** The assignments of `J9_LINKED_LIST_REMOVE`. */
    method RemoveLinks(element: T)
      requires element in next && element in prev && prev[element] in next && next[element] in prev
      modifies this`root, this`next, this`prev
      ensures root == (if old(root) != Some(element) then old(root)
                       else if old(next[element]) == element then None else Some(old(next[element])))
      ensures next == old(next)[old(prev[element]) := old(next[element])]
      ensures prev == old(prev)[next[element] := old(prev[element])]
    {
      if Some(element) == root {
        if next[element] == element {
          root := None;
        } else {
          root := Some(next[element]);
        }
      }
      next := next[prev[element] := next[element]];
      prev := prev[next[element] := prev[element]];
    }

    method RemoveFirst() returns (element: T)
      requires Valid() && root != None
      modifies this
      ensures Valid() && element == old(elems[0]) && elems == old(elems)[1..]
      ensures next.Keys == old(next.Keys) && prev.Keys == old(prev.Keys)
    {
      element := root.value;
      LinksInverse(elems, next, prev, element);
      RemoveFirstLinks(elems, next, prev);
      if next[element] == element {
        root := None;
      } else {
        root := Some(next[element]);
        next := next[prev[element] := next[element]];
        prev := prev[next[element] := prev[element]];
      }
      elems := elems[1..];
    }

    /** `J9_LINKED_LIST_NEXT_DO`: only the link of `element` is read. */
    function NextDo(element: T): Option<T>
      requires element in next
      reads this
    {
      if root == Some(next[element]) then None else Some(next[element])
    }

    function ReverseStartDo(): Option<T>
      requires root.Some? ==> root.value in prev
      reads this
    {
      if root.None? then None else Some(prev[root.value])
    }

    function ReverseNextDo(element: T): Option<T>
      requires root == Some(element) || element in prev
      reads this
    {
      if root == Some(element) then None else Some(prev[element])
    }

    /** Forward iteration visits every element exactly once, in list order, and stops. */
    method Walk() returns (visited: seq<T>)
      requires Valid()
      ensures visited == elems
    {
      visited := [];
      var cursor := root;
      while cursor != None
        invariant |visited| <= |elems| && visited == elems[..|visited|]
        invariant cursor == if |visited| == |elems| then None else Some(elems[|visited|])
        decreases |elems| - |visited|
      {
        assert LinkedAt(elems, next, prev, |visited|);
        visited := visited + [cursor.value];
        cursor := NextDo(cursor.value);
      }
    }

    /** Reverse iteration visits every element exactly once, from the last to the first, and stops. */
    method ReverseWalk() returns (visited: seq<T>)
      requires Valid()
      ensures visited == Reversed(elems)
    {
      visited := [];
      assert elems != [] ==> LinkedAt(elems, next, prev, 0);
      var cursor := ReverseStartDo();
      while cursor != None
        invariant |visited| <= |elems|
        invariant forall i | 0 <= i < |visited| :: visited[i] == elems[|elems| - 1 - i]
        invariant cursor == if |visited| == |elems| then None else Some(elems[|elems| - 1 - |visited|])
        decreases |elems| - |visited|
      {
        assert LinkedAt(elems, next, prev, |elems| - 1 - |visited|);
        visited := visited + [cursor.value];
        cursor := ReverseNextDo(cursor.value);
      }
    }

    method ExecuteOne(c: Command<T>)
      requires Valid() && Legal(elems, c)
      modifies this
      ensures Valid() && elems == Apply(old(elems), c)
    {
      match c {
        case DoAddAfter(after, e) => AddAfter(after, e);
        case DoAddBefore(before, e) => AddBefore(before, e);
        case DoAddFirst(e) => AddFirst(e);
        case DoAddLast(e) => AddLast(e);
        case DoRemove(e) => Remove(e);
        case DoRemoveFirst => var _ := RemoveFirst();
      }
    }

    /** Any legal sequence of macros keeps the circle and acts as the corresponding sequence operations. */
    method Execute(script: seq<Command<T>>)
      requires Valid() && LegalScript(elems, script)
      modifies this
      ensures Valid() && elems == old(ApplyAll(elems, script))
    {
      var i := 0;
      while i < |script|
        invariant i <= |script| && Valid()
        invariant LegalScript(elems, script[i..])
        invariant ApplyAll(elems, script[i..]) == old(ApplyAll(elems, script))
      {
        assert script[i..][1..] == script[i + 1..];
        ExecuteOne(script[i]);
        i := i + 1;
      }
    }

    /** Releases the memory of an element: its link fields are gone. */
    method Free(element: T)
      requires element in next && element in prev
      modifies this`next, this`prev
      ensures next == old(next) - {element} && prev == old(prev) - {element}
    {
      next := next - {element};
      prev := prev - {element};
    }
  }
}
