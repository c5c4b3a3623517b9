/**
 An AVL tree laid out in memory (util/avl/avlsup.c, include_core/j9nongenerated.h): what the child fields
 of its nodes have to hold, and how the assignments of a rotation change that. A node is two fields, the
 left one at its address and the right one a word further on; the tag of the left field is its balance.
 */
module AvlWiring {
  import opened MachineInts
  import opened SelfRelative
  import opened AvlTree

  const WORD: nat := 8

  /** What all fields hold, by address: link and tag. Address 0 stands for the root pointer of the tree. */
  datatype Wiring = Wiring(link: map<nat, nat>, tag: map<nat, Bits>)

  function SetLink(w: Wiring, field: nat, target: nat): Wiring {
    w.(link := w.link[field := target])
  }

  function SetTag(w: Wiring, field: nat, tag: Bits): Wiring {
    w.(tag := w.tag[field := tag])
  }

  function Code(b: Balance): Bits {
    match b
    case Balanced => 0
    case LeftHeavy => 1
    case RightHeavy => 2
  }

  // ---------------------------------------------------------------------------------------
  // Where the nodes are
  // ---------------------------------------------------------------------------------------

  predicate GoodAddress(a: nat) {
    0 < a && Aligned(a) && a + WORD < TWO64
  }

  /** The nodes of two keys do not overlap. */
  predicate ClearOf(place: map<int, nat>, j: int, k: int)
    requires j in place && k in place
  {
    place[j] != place[k] && place[j] + WORD != place[k] && place[k] + WORD != place[j]
  }

  /** The node of every key has an address of its own, and nodes do not overlap. */
  predicate GoodPlace(place: map<int, nat>) {
    && (forall k {:trigger GoodAddress(place[k])} | k in place :: GoodAddress(place[k]))
    && (forall j, k {:trigger ClearOf(place, j, k)} | j in place && k in place && j != k :: ClearOf(place, j, k))
  }

  function Keys(t: Tree): set<int> {
    if t.Nil? then {} else Keys(t.left) + {t.key} + Keys(t.right)
  }

  /** No key occurs twice. */
  predicate Apart(t: Tree) {
    t.Node? ==>
      && t.key !in Keys(t.left) && t.key !in Keys(t.right) && Keys(t.left) !! Keys(t.right)
      && Apart(t.left) && Apart(t.right)
  }

  /** The address of a tree: that of its root node, or NULL. */
  function Addr(place: map<int, nat>, t: Tree): nat {
    if t.Node? && t.key in place then place[t.key] else 0
  }

  /** The fields of the nodes of a tree. */
  function Footprint(place: map<int, nat>, t: Tree): set<nat> {
    if t.Nil? then {}
    else Fields(place, t.key) + Footprint(place, t.left) + Footprint(place, t.right)
  }

  /** The two fields of the node of `key`. */
  function Fields(place: map<int, nat>, key: int): set<nat> {
    if key in place then {place[key], place[key] + WORD} else {}
  }

  /** The two fields of the root node of `t`. */
  predicate NodeAt(w: Wiring, place: map<int, nat>, t: Tree)
    requires t.Node? && t.key in place
  {
    var a := place[t.key];
    && a in w.link && a + WORD in w.link && a in w.tag && a + WORD in w.tag
    && w.link[a] == Addr(place, t.left) && w.link[a + WORD] == Addr(place, t.right)
    && w.tag[a] == Code(t.balance)
  }

  /** The fields hold tree `t`. */
  predicate Stored(w: Wiring, place: map<int, nat>, t: Tree) {
    t.Node? ==>
      t.key in place && NodeAt(w, place, t) && Stored(w, place, t.left) && Stored(w, place, t.right)
  }

  predicate SameAt(w: Wiring, v: Wiring, f: nat) {
    && f in w.link && f in v.link && w.link[f] == v.link[f]
    && f in w.tag && f in v.tag && w.tag[f] == v.tag[f]
  }

  /** From `w` to `v` at most the given fields have changed. */
  predicate OnlyChanges(w: Wiring, v: Wiring, fields: set<nat>) {
    && w.link.Keys == v.link.Keys && w.tag.Keys == v.tag.Keys && w.link.Keys == w.tag.Keys
    && forall f {:trigger SameAt(w, v, f)} | f in w.link && f !in fields :: SameAt(w, v, f)
  }

  lemma {:induction false} OffFootprint(place: map<int, nat>, t: Tree, k: int)
    requires GoodPlace(place) && k in place && k !in Keys(t)
    ensures place[k] !in Footprint(place, t) && place[k] + WORD !in Footprint(place, t)
  {
    if t.Node? {
      assert t.key in place ==> ClearOf(place, k, t.key);
      OffFootprint(place, t.left, k);
      OffFootprint(place, t.right, k);
    }
  }

  lemma {:induction false} FootprintsApart(place: map<int, nat>, s: Tree, t: Tree)
    requires GoodPlace(place) && Keys(s) !! Keys(t)
    ensures Footprint(place, s) !! Footprint(place, t)
  {
    if s.Node? {
      if s.key in place {
        OffFootprint(place, t, s.key);
      }
      FootprintsApart(place, s.left, t);
      FootprintsApart(place, s.right, t);
    }
  }

  /** A tree is still stored after changes elsewhere. */
  lemma {:induction false} StoredFrame(w: Wiring, v: Wiring, place: map<int, nat>, t: Tree)
    requires Stored(w, place, t)
    requires forall f | f in Footprint(place, t) :: SameAt(w, v, f)
    ensures Stored(v, place, t)
  {
    if t.Node? {
      assert SameAt(w, v, place[t.key]) && SameAt(w, v, place[t.key] + WORD);
      StoredFrame(w, v, place, t.left);
      StoredFrame(w, v, place, t.right);
    }
  }

  lemma {:induction false} StoredFields(w: Wiring, place: map<int, nat>, t: Tree)
    requires Stored(w, place, t)
    ensures Footprint(place, t) <= w.link.Keys && Footprint(place, t) <= w.tag.Keys
  {
    if t.Node? {
      StoredFields(w, place, t.left);
      StoredFields(w, place, t.right);
    }
  }

  /** The same, from what has changed. */
  lemma StoredElsewhere(w: Wiring, v: Wiring, place: map<int, nat>, t: Tree, fields: set<nat>)
    requires Stored(w, place, t)
    requires OnlyChanges(w, v, fields) && fields !! Footprint(place, t)
    ensures Stored(v, place, t)
  {
    StoredFields(w, place, t);
    forall f | f in Footprint(place, t)
      ensures SameAt(w, v, f)
    {
    }
    StoredFrame(w, v, place, t);
  }

  lemma OnlyChangesChain(u: Wiring, v: Wiring, w: Wiring, a: set<nat>, b: set<nat>)
    requires OnlyChanges(u, v, a) && OnlyChanges(v, w, b)
    ensures OnlyChanges(u, w, a + b)
  {
    forall f | f in u.link && f !in a + b
      ensures SameAt(u, w, f)
    {
      assert SameAt(u, v, f) && SameAt(v, w, f);
    }
  }

  lemma OnlyChangesMore(u: Wiring, v: Wiring, a: set<nat>, b: set<nat>)
    requires OnlyChanges(u, v, a) && a <= b
    ensures OnlyChanges(u, v, b)
  {
    forall f | f in u.link && f !in b
      ensures SameAt(u, v, f)
    {
    }
  }

  // ---------------------------------------------------------------------------------------
  // Sorted trees
  // ---------------------------------------------------------------------------------------

  lemma {:induction false} KeysInOrder(t: Tree, x: int)
    ensures x in Keys(t) <==> x in InOrder(t)
  {
    if t.Node? {
      KeysInOrder(t.left, x);
      KeysInOrder(t.right, x);
    }
  }

  lemma {:induction false} SortedApart(t: Tree)
    requires Sorted(InOrder(t))
    ensures Apart(t)
  {
    if t.Node? {
      SortedJoin(InOrder(t.left), t.key, InOrder(t.right));
      SortedApart(t.left);
      SortedApart(t.right);
      forall x
        ensures x in Keys(t.left) ==> x < t.key
        ensures x in Keys(t.right) ==> t.key < x
      {
        KeysInOrder(t.left, x);
        KeysInOrder(t.right, x);
      }
    }
  }

  lemma {:induction false} FootprintMember(place: map<int, nat>, t: Tree, f: nat) returns (k: int)
    requires f in Footprint(place, t)
    ensures k in Keys(t) && f in Fields(place, k)
  {
    if f in Fields(place, t.key) {
      k := t.key;
    } else if f in Footprint(place, t.left) {
      k := FootprintMember(place, t.left, f);
    } else {
      k := FootprintMember(place, t.right, f);
    }
  }

  lemma {:induction false} FootprintContains(place: map<int, nat>, t: Tree, k: int)
    requires k in Keys(t)
    ensures Fields(place, k) <= Footprint(place, t)
  {
    if k in Keys(t.left) {
      FootprintContains(place, t.left, k);
    } else if k in Keys(t.right) {
      FootprintContains(place, t.right, k);
    }
  }

  /** The fields of a tree depend on its keys only. */
  lemma FootprintOfKeys(place: map<int, nat>, s: Tree, t: Tree, extra: set<nat>, key: int)
    requires forall k | k in Keys(s) :: k in Keys(t) || k == key
    requires key in Keys(s) && key !in Keys(t) ==> Fields(place, key) <= extra
    ensures Footprint(place, s) <= Footprint(place, t) + extra
  {
    forall f | f in Footprint(place, s)
      ensures f in Footprint(place, t) + extra
    {
      var k := FootprintMember(place, s, f);
      if k in Keys(t) {
        FootprintContains(place, t, k);
      }
    }
  }

  // ---------------------------------------------------------------------------------------
  // Assignments
  // ---------------------------------------------------------------------------------------

  /** The field of the root node that leads to the side `direction`. */
  function ChildField(place: map<int, nat>, t: Tree, direction: int): nat
    requires t.Node? && t.key in place
  {
    if direction < 0 then place[t.key] else place[t.key] + WORD
  }

  /** The fields once `sub` hangs at the side `direction` of the root node of `t`, whose balance is then `b`. */
  function Attach(w: Wiring, place: map<int, nat>, t: Tree, direction: int, sub: Tree, b: Balance): Wiring
    requires t.Node? && t.key in place
  {
    SetTag(SetLink(w, ChildField(place, t, direction), Addr(place, sub)), place[t.key], Code(b))
  }

  function Attached(t: Tree, direction: int, sub: Tree, b: Balance): (u: Tree)
    requires t.Node?
    ensures u.Node? && u.key == t.key
  {
    if direction < 0 then Node(sub, t.key, b, t.right) else Node(t.left, t.key, b, sub)
  }

  lemma AttachChanges(w: Wiring, place: map<int, nat>, t: Tree, direction: int, sub: Tree, b: Balance)
    requires t.Node? && t.key in place && w.link.Keys == w.tag.Keys && Fields(place, t.key) <= w.link.Keys
    ensures OnlyChanges(w, Attach(w, place, t, direction, sub, b), Fields(place, t.key))
  {
  }

  /** Trees without the node are still stored. */
  lemma AttachKeeps(w: Wiring, place: map<int, nat>, t: Tree, direction: int, sub: Tree, b: Balance, s: Tree)
    requires GoodPlace(place) && t.Node? && t.key in place && w.link.Keys == w.tag.Keys && NodeAt(w, place, t)
    requires t.key !in Keys(s) && Stored(w, place, s)
    ensures Stored(Attach(w, place, t, direction, sub, b), place, s)
  {
    AttachChanges(w, place, t, direction, sub, b);
    OffFootprint(place, s, t.key);
    StoredElsewhere(w, Attach(w, place, t, direction, sub, b), place, s, Fields(place, t.key));
  }

  /** Other nodes are as they were. */
  lemma AttachKeepsNode(w: Wiring, place: map<int, nat>, t: Tree, direction: int, sub: Tree, b: Balance, s: Tree)
    requires GoodPlace(place) && t.Node? && t.key in place && s.Node? && s.key in place && s.key != t.key
    requires NodeAt(w, place, s)
    ensures NodeAt(Attach(w, place, t, direction, sub, b), place, s)
  {
    assert ClearOf(place, t.key, s.key);
  }

  /** Exchanging a subtree of a node for another one that is stored. */
  lemma AttachStored(w: Wiring, place: map<int, nat>, t: Tree, direction: int, sub: Tree, b: Balance)
    requires GoodPlace(place) && t.Node? && t.key in place && w.link.Keys == w.tag.Keys && NodeAt(w, place, t)
    requires direction != 0 && t.key !in Keys(Side(t, -direction)) && t.key !in Keys(sub)
    requires Stored(w, place, Side(t, -direction)) && Stored(w, place, sub)
    ensures Stored(Attach(w, place, t, direction, sub, b), place, Attached(t, direction, sub, b))
    ensures OnlyChanges(w, Attach(w, place, t, direction, sub, b), Fields(place, t.key))
  {
    AttachKeeps(w, place, t, direction, sub, b, Side(t, -direction));
    AttachKeeps(w, place, t, direction, sub, b, sub);
    AttachChanges(w, place, t, direction, sub, b);
    assert NodeAt(Attach(w, place, t, direction, sub, b), place, Attached(t, direction, sub, b));
  }

  // ---------------------------------------------------------------------------------------
  // Rotations
  // ---------------------------------------------------------------------------------------

  /** A single rotation away from the side `-direction`, with the new balances of the two nodes. */
  function RotateWiring(w: Wiring, place: map<int, nat>, t: Tree, direction: int, hb: Balance, wb: Balance): Wiring
    requires t.Node? && t.key in place && Side(t, -direction).Node? && Side(t, -direction).key in place
  {
    var heavy := Side(t, -direction);
    var graft := Side(heavy, direction);
    Attach(Attach(w, place, t, -direction, graft, wb), place, heavy, direction, Attached(t, -direction, graft, wb), hb)
  }

  function RotateTree(t: Tree, direction: int, hb: Balance, wb: Balance): Tree
    requires t.Node? && Side(t, -direction).Node?
  {
    var heavy := Side(t, -direction);
    Attached(heavy, direction, Attached(t, -direction, Side(heavy, direction), wb), hb)
  }

  /** The fields hold tree `t`, in which no key occurs twice. */
  predicate Sound(w: Wiring, place: map<int, nat>, t: Tree) {
    GoodPlace(place) && Apart(t) && w.link.Keys == w.tag.Keys && Stored(w, place, t)
  }

  /** A subtree is sound, and does not contain its parent node. */
  lemma SoundSide(w: Wiring, place: map<int, nat>, t: Tree, direction: int)
    requires Sound(w, place, t) && t.Node? && direction != 0
    ensures t.key in place && NodeAt(w, place, t)
    ensures Sound(w, place, Side(t, direction)) && t.key !in Keys(Side(t, direction))
    ensures Keys(Side(t, direction)) !! Keys(Side(t, -direction))
    ensures Fields(place, t.key) <= Footprint(place, t) && Footprint(place, Side(t, direction)) <= Footprint(place, t)
  {
  }

  lemma ApartSides(t: Tree, direction: int)
    requires t.Node? && direction != 0 && Apart(t)
    ensures Apart(Side(t, direction)) && Apart(Side(t, -direction))
    ensures t.key !in Keys(Side(t, direction)) && t.key !in Keys(Side(t, -direction))
    ensures Keys(Side(t, direction)) !! Keys(Side(t, -direction))
  {
  }

  /** A key that is not in a tree is not in its parts. */
  lemma OffParts(t: Tree, direction: int, k: int)
    requires t.Node? && direction != 0 && k !in Keys(t)
    ensures k != t.key && k !in Keys(Side(t, direction)) && k !in Keys(Side(t, -direction))
  {
  }

  lemma OffAttached(t: Tree, direction: int, sub: Tree, b: Balance, k: int)
    requires t.Node? && direction != 0 && k != t.key && k !in Keys(Side(t, -direction)) && k !in Keys(sub)
    ensures k !in Keys(Attached(t, direction, sub, b))
  {
  }

  lemma RotateStored(w: Wiring, place: map<int, nat>, t: Tree, direction: int, hb: Balance, wb: Balance)
    requires Sound(w, place, t) && t.Node? && direction != 0 && Side(t, -direction).Node?
    ensures t.key in place && Side(t, -direction).key in place
    ensures Stored(RotateWiring(w, place, t, direction, hb, wb), place, RotateTree(t, direction, hb, wb))
    ensures OnlyChanges(w, RotateWiring(w, place, t, direction, hb, wb), Footprint(place, t))
  {
    var heavy := Side(t, -direction);
    var graft := Side(heavy, direction);
    var walk := Attached(t, -direction, graft, wb);
    var v := Attach(w, place, t, -direction, graft, wb);
    SoundSide(w, place, t, direction);
    SoundSide(w, place, t, -direction);
    SoundSide(w, place, heavy, direction);
    SoundSide(w, place, heavy, -direction);
    OffParts(heavy, direction, t.key);
    AttachStored(w, place, t, -direction, graft, wb);
    AttachKeepsNode(w, place, t, -direction, graft, wb, heavy);
    AttachKeeps(w, place, t, -direction, graft, wb, Side(heavy, -direction));
    HeavyOff(t, direction);
    OffAttached(t, -direction, graft, wb, heavy.key);
    AttachStored(v, place, heavy, direction, walk, hb);
    var z := RotateWiring(w, place, t, direction, hb, wb);
    OnlyChangesChain(w, v, z, Fields(place, t.key), Fields(place, heavy.key));
    OnlyChangesMore(w, z, Fields(place, t.key) + Fields(place, heavy.key), Footprint(place, t));
  }

  /** The links that a single rotation changes. */
  function RotateLinks(w: Wiring, place: map<int, nat>, t: Tree, direction: int): Wiring
    requires t.Node? && t.key in place && Side(t, -direction).Node? && Side(t, -direction).key in place
  {
    var heavy := Side(t, -direction);
    SetLink(SetLink(w, ChildField(place, t, -direction), Addr(place, Side(heavy, direction))),
            ChildField(place, heavy, direction), place[t.key])
  }

  /** Links first, balances afterwards. */
  lemma RotateWiringParts(w: Wiring, place: map<int, nat>, t: Tree, direction: int, hb: Balance, wb: Balance)
    requires t.Node? && t.key in place && Side(t, -direction).Node? && Side(t, -direction).key in place
    requires place[t.key] != place[Side(t, -direction).key]
    ensures RotateWiring(w, place, t, direction, hb, wb)
         == SetTag(SetTag(RotateLinks(w, place, t, direction), place[Side(t, -direction).key], Code(hb)),
                   place[t.key], Code(wb))
  {
  }

  /** The key of the heavy child is not on the other side. */
  lemma HeavyOff(t: Tree, direction: int)
    requires t.Node? && direction != 0 && Apart(t) && Side(t, -direction).Node?
    ensures Side(t, -direction).key !in Keys(Side(t, direction))
  {
    assert Side(t, -direction).key in Keys(Side(t, -direction));
  }

  /** The inner subtree of the heavy side, which a double rotation brings to the top. */
  predicate HasInner(t: Tree, direction: int) {
    t.Node? && direction != 0 && Side(t, -direction).Node? && Side(Side(t, -direction), direction).Node?
  }

  /** The three nodes of a double rotation have addresses. */
  predicate InnerPlaced(place: map<int, nat>, t: Tree, direction: int)
    requires HasInner(t, direction)
  {
    t.key in place && Side(t, -direction).key in place && Side(Side(t, -direction), direction).key in place
  }

  function DoubleRotateTree(t: Tree, direction: int, hb: Balance, wb: Balance): Tree
    requires HasInner(t, direction)
  {
    var heavy := Side(t, -direction);
    var top := Side(heavy, direction);
    var h := Attached(heavy, direction, Side(top, -direction), hb);
    var k := Attached(t, -direction, Side(top, direction), wb);
    Attached(Attached(top, -direction, h, top.balance), direction, k, Balanced)
  }

  function DoubleRotateWiring(w: Wiring, place: map<int, nat>, t: Tree, direction: int, hb: Balance, wb: Balance)
    : Wiring
    requires HasInner(t, direction) && InnerPlaced(place, t, direction)
  {
    var heavy := Side(t, -direction);
    var top := Side(heavy, direction);
    var h := Attached(heavy, direction, Side(top, -direction), hb);
    var k := Attached(t, -direction, Side(top, direction), wb);
    var v1 := Attach(w, place, heavy, direction, Side(top, -direction), hb);
    var v2 := Attach(v1, place, top, -direction, h, top.balance);
    var v3 := Attach(v2, place, t, -direction, Side(top, direction), wb);
    Attach(v3, place, Attached(top, -direction, h, top.balance), direction, k, Balanced)
  }

  /** The links that a double rotation changes. */
  function DoubleRotateLinks(w: Wiring, place: map<int, nat>, t: Tree, direction: int): Wiring
    requires HasInner(t, direction) && InnerPlaced(place, t, direction)
  {
    var heavy := Side(t, -direction);
    var top := Side(heavy, direction);
    var v := SetLink(SetLink(w, ChildField(place, heavy, direction), Addr(place, Side(top, -direction))),
                     ChildField(place, top, -direction), place[heavy.key]);
    SetLink(SetLink(v, ChildField(place, t, -direction), Addr(place, Side(top, direction))),
            ChildField(place, top, direction), place[t.key])
  }

  /** Links first, balances afterwards. */
  lemma DoubleRotateWiringParts(w: Wiring, place: map<int, nat>, t: Tree, direction: int, hb: Balance, wb: Balance)
    requires HasInner(t, direction) && InnerPlaced(place, t, direction)
    requires
      var heavy := Side(t, -direction);
      var a, h, k := place[t.key], place[heavy.key], place[Side(heavy, direction).key];
      a != h && a != k && h != k
    ensures
      var heavy := Side(t, -direction);
      var top := Side(heavy, direction);
      DoubleRotateWiring(w, place, t, direction, hb, wb)
        == SetTag(SetTag(SetTag(DoubleRotateLinks(w, place, t, direction), place[heavy.key], Code(hb)),
                         place[t.key], Code(wb)), place[top.key], 0)
  {
  }

  /** First half: the inner node takes the heavy one as its child, on the outer side. */
  lemma DoubleRotateBegin(w: Wiring, place: map<int, nat>, heavy: Tree, direction: int, hb: Balance)
    requires Sound(w, place, heavy) && heavy.Node? && direction != 0 && Side(heavy, direction).Node?
    ensures heavy.key in place && Side(heavy, direction).key in place
    ensures
      var top := Side(heavy, direction);
      var h := Attached(heavy, direction, Side(top, -direction), hb);
      var v1 := Attach(w, place, heavy, direction, Side(top, -direction), hb);
      var v2 := Attach(v1, place, top, -direction, h, top.balance);
      && Stored(v2, place, Attached(top, -direction, h, top.balance))
      && OnlyChanges(w, v2, Footprint(place, heavy))
  {
    var top := Side(heavy, direction);
    var g1 := Side(top, -direction);
    var h := Attached(heavy, direction, g1, hb);
    var v1 := Attach(w, place, heavy, direction, g1, hb);
    SoundSide(w, place, heavy, direction);
    SoundSide(w, place, heavy, -direction);
    SoundSide(w, place, top, direction);
    SoundSide(w, place, top, -direction);
    var v2 := Attach(v1, place, top, -direction, h, top.balance);
    OffParts(top, direction, heavy.key);
    AttachStored(w, place, heavy, direction, g1, hb);
    AttachKeepsNode(w, place, heavy, direction, g1, hb, top);
    AttachKeeps(w, place, heavy, direction, g1, hb, Side(top, direction));
    HeavyOff(heavy, -direction);
    OffAttached(heavy, direction, g1, hb, top.key);
    AttachStored(v1, place, top, -direction, h, top.balance);
    OnlyChangesChain(w, v1, v2, Fields(place, heavy.key), Fields(place, top.key));
    OnlyChangesMore(w, v2, Fields(place, heavy.key) + Fields(place, top.key), Footprint(place, heavy));
  }

  /** Second half: the old root takes the inner graft and becomes a child of the new one. */
  lemma DoubleRotateEnd(w: Wiring, place: map<int, nat>, t: Tree, top: Tree, direction: int, wb: Balance)
    requires GoodPlace(place) && w.link.Keys == w.tag.Keys && t.Node? && top.Node? && direction != 0
    requires t.key in place && top.key in place && NodeAt(w, place, t)
    requires Stored(w, place, Side(t, direction)) && Stored(w, place, top)
    requires t.key !in Keys(Side(t, direction)) && t.key !in Keys(top) && top.key !in Keys(Side(t, direction))
    requires top.key !in Keys(top.left) && top.key !in Keys(top.right)
    ensures
      var k := Attached(t, -direction, Side(top, direction), wb);
      var v := Attach(w, place, t, -direction, Side(top, direction), wb);
      var z := Attach(v, place, top, direction, k, Balanced);
      && Stored(z, place, Attached(top, direction, k, Balanced))
      && OnlyChanges(w, z, Fields(place, t.key) + Fields(place, top.key))
  {
    var g := Side(top, direction);
    var k := Attached(t, -direction, g, wb);
    var v := Attach(w, place, t, -direction, g, wb);
    OffParts(top, direction, t.key);
    AttachStored(w, place, t, -direction, g, wb);
    AttachKeepsNode(w, place, t, -direction, g, wb, top);
    AttachKeeps(w, place, t, -direction, g, wb, Side(top, -direction));
    OffAttached(t, -direction, g, wb, top.key);
    AttachStored(v, place, top, direction, k, Balanced);
    OnlyChangesChain(w, v, Attach(v, place, top, direction, k, Balanced), Fields(place, t.key), Fields(place, top.key));
  }

  lemma DoubleRotateStored(w: Wiring, place: map<int, nat>, t: Tree, direction: int, hb: Balance, wb: Balance)
    requires Sound(w, place, t) && HasInner(t, direction)
    ensures InnerPlaced(place, t, direction)
    ensures Stored(DoubleRotateWiring(w, place, t, direction, hb, wb), place, DoubleRotateTree(t, direction, hb, wb))
    ensures OnlyChanges(w, DoubleRotateWiring(w, place, t, direction, hb, wb), Footprint(place, t))
  {
    var heavy := Side(t, -direction);
    var top := Side(heavy, direction);
    var h := Attached(heavy, direction, Side(top, -direction), hb);
    var top1 := Attached(top, -direction, h, top.balance);
    SoundSide(w, place, t, direction);
    SoundSide(w, place, t, -direction);
    DoubleRotateBegin(w, place, heavy, direction, hb);
    var v1 := Attach(w, place, heavy, direction, Side(top, -direction), hb);
    var v2 := Attach(v1, place, top, -direction, h, top.balance);
    OffFootprint(place, heavy, t.key);
    NodeElsewhere(w, v2, place, t, Footprint(place, heavy));
    FootprintsApart(place, heavy, Side(t, direction));
    StoredElsewhere(w, v2, place, Side(t, direction), Footprint(place, heavy));
    TopKeys(t, direction, hb);
    DoubleRotateEnd(v2, place, t, top1, direction, wb);
    var z := DoubleRotateWiring(w, place, t, direction, hb, wb);
    OnlyChangesChain(w, v2, z, Footprint(place, heavy), Fields(place, t.key) + Fields(place, top.key));
    TopFields(place, heavy, direction);
    OnlyChangesMore(w, z, Footprint(place, heavy) + (Fields(place, t.key) + Fields(place, top.key)),
                    Footprint(place, t));
  }

  lemma TopFields(place: map<int, nat>, heavy: Tree, direction: int)
    requires heavy.Node? && Side(heavy, direction).Node?
    ensures Fields(place, Side(heavy, direction).key) <= Footprint(place, heavy)
  {
    assert Fields(place, Side(heavy, direction).key) <= Footprint(place, Side(heavy, direction));
  }

  /** The keys around the inner node. */
  lemma TopKeys(t: Tree, direction: int, hb: Balance)
    requires HasInner(t, direction) && Apart(t)
    ensures
      var heavy := Side(t, -direction);
      var top := Side(heavy, direction);
      var h := Attached(heavy, direction, Side(top, -direction), hb);
      var top1 := Attached(top, -direction, h, top.balance);
      && t.key !in Keys(top1) && top.key !in Keys(Side(t, direction))
      && top.key !in Keys(top1.left) && top.key !in Keys(top1.right)
  {
    var heavy := Side(t, -direction);
    var top := Side(heavy, direction);
    ApartSides(t, direction);
    ApartSides(heavy, direction);
    ApartSides(top, direction);
    OffParts(heavy, direction, t.key);
    OffParts(top, direction, t.key);
    OffAttached(heavy, direction, Side(top, -direction), hb, t.key);
    OffAttached(top, -direction, Attached(heavy, direction, Side(top, -direction), hb), top.balance, t.key);
    HeavyOff(heavy, -direction);
    OffAttached(heavy, direction, Side(top, -direction), hb, top.key);
    assert top.key in Keys(top) && top.key in Keys(heavy);
  }

  lemma NodeElsewhere(w: Wiring, v: Wiring, place: map<int, nat>, t: Tree, fields: set<nat>)
    requires t.Node? && t.key in place && NodeAt(w, place, t) && OnlyChanges(w, v, fields)
    requires fields !! Fields(place, t.key)
    ensures NodeAt(v, place, t)
  {
    assert SameAt(w, v, place[t.key]) && SameAt(w, v, place[t.key] + WORD);
  }

  /** The rotations of the tree are these. */
  lemma RotateShape(t: Tree, direction: int, change: int)
    requires t.Node? && direction != 0 && Side(t, -direction).Node?
    ensures
      var heavy := Side(t, -direction);
      Rotate(t, direction, change).0 ==
        if heavy.balance != Balanced then RotateTree(t, direction, Balanced, Balanced)
        else if direction < 0 then RotateTree(t, direction, LeftHeavy, RightHeavy)
        else RotateTree(t, direction, RightHeavy, LeftHeavy)
  {
  }

  /** The new balances of the heavy node and of the old root after a double rotation. */
  function DoubleBalances(top: Balance, direction: int): (Balance, Balance) {
    match top
    case Balanced => (Balanced, Balanced)
    case LeftHeavy => if direction < 0 then (RightHeavy, Balanced) else (Balanced, RightHeavy)
    case RightHeavy => if direction < 0 then (Balanced, LeftHeavy) else (LeftHeavy, Balanced)
  }

  lemma DoubleRotateShape(t: Tree, direction: int, change: int)
    requires HasInner(t, direction)
    ensures
      var (hb, wb) := DoubleBalances(Side(Side(t, -direction), direction).balance, direction);
      DoubleRotate(t, direction, change).0 == DoubleRotateTree(t, direction, hb, wb)
  {
  }

  /** Rotations bring in no key. */
  lemma OffRotate(t: Tree, direction: int, hb: Balance, wb: Balance, k: int)
    requires t.Node? && direction != 0 && Side(t, -direction).Node? && k !in Keys(t)
    ensures RotateTree(t, direction, hb, wb).Node? && k !in Keys(RotateTree(t, direction, hb, wb))
  {
    var heavy := Side(t, -direction);
    OffParts(t, direction, k);
    OffParts(heavy, direction, k);
    OffAttached(t, -direction, Side(heavy, direction), wb, k);
    OffAttached(heavy, direction, Attached(t, -direction, Side(heavy, direction), wb), hb, k);
  }

  lemma OffDoubleRotate(t: Tree, direction: int, hb: Balance, wb: Balance, k: int)
    requires HasInner(t, direction) && k !in Keys(t)
    ensures DoubleRotateTree(t, direction, hb, wb).Node? && k !in Keys(DoubleRotateTree(t, direction, hb, wb))
  {
    var heavy := Side(t, -direction);
    var top := Side(heavy, direction);
    OffParts(t, direction, k);
    OffParts(heavy, direction, k);
    OffParts(top, direction, k);
    var h := Attached(heavy, direction, Side(top, -direction), hb);
    OffAttached(heavy, direction, Side(top, -direction), hb, k);
    OffAttached(t, -direction, Side(top, direction), wb, k);
    OffAttached(top, -direction, h, top.balance, k);
    OffAttached(Attached(top, -direction, h, top.balance), direction, Attached(t, -direction, Side(top, direction), wb),
                Balanced, k);
  }

  /** Changing the balance of the root node. */
  lemma StoredTag(w: Wiring, place: map<int, nat>, t: Tree, b: Balance)
    requires Sound(w, place, t) && t.Node?
    ensures t.key in place && Stored(SetTag(w, place[t.key], Code(b)), place, t.(balance := b))
    ensures OnlyChanges(w, SetTag(w, place[t.key], Code(b)), Footprint(place, t))
  {
    SoundSide(w, place, t, 1);
    SoundSide(w, place, t, -1);
    AttachStored(w, place, t, 1, t.right, b);
    assert Attach(w, place, t, 1, t.right, b) == SetTag(w, place[t.key], Code(b));
    OnlyChangesMore(w, SetTag(w, place[t.key], Code(b)), Fields(place, t.key), Footprint(place, t));
  }

  /** A node whose subtree on one side has been replaced through the field that leads there. */
  lemma SideReplaced(w: Wiring, v: Wiring, place: map<int, nat>, t: Tree, direction: int, sub: Tree, extra: set<nat>)
    requires Sound(w, place, t) && t.Node? && direction != 0 && t.key in place
    requires
      var f := ChildField(place, t, direction);
      && OnlyChanges(w, v, Footprint(place, Side(t, direction)) + extra + {f})
      && f in v.link && v.link[f] == Addr(place, sub) && f in w.tag && f in v.tag && v.tag[f] == w.tag[f]
    requires extra !! Fields(place, t.key) && extra !! Footprint(place, Side(t, -direction))
    requires Stored(v, place, sub)
    ensures Stored(v, place, WithSide(t, direction, sub))
  {
    var f := ChildField(place, t, direction);
    SoundSide(w, place, t, direction);
    SoundSide(w, place, t, -direction);
    OffFootprint(place, Side(t, direction), t.key);
    OffFootprint(place, Side(t, -direction), t.key);
    FootprintsApart(place, Side(t, direction), Side(t, -direction));
    ThreeElsewhere(w, v, place, Side(t, -direction), Footprint(place, Side(t, direction)), extra, f);
    OtherField(w, v, place, t, direction, Footprint(place, Side(t, direction)) + extra);
    NodeReplaced(w, v, place, t, direction, sub);
  }

  lemma OtherField(w: Wiring, v: Wiring, place: map<int, nat>, t: Tree, direction: int, fields: set<nat>)
    requires t.Node? && t.key in place && direction != 0 && NodeAt(w, place, t)
    requires OnlyChanges(w, v, fields + {ChildField(place, t, direction)}) && fields !! Fields(place, t.key)
    ensures SameAt(w, v, ChildField(place, t, -direction))
  {
  }

  lemma NodeReplaced(w: Wiring, v: Wiring, place: map<int, nat>, t: Tree, direction: int, sub: Tree)
    requires t.Node? && t.key in place && direction != 0 && NodeAt(w, place, t)
    requires SameAt(w, v, ChildField(place, t, -direction))
    requires
      var f := ChildField(place, t, direction);
      f in v.link && v.link[f] == Addr(place, sub) && f in v.tag && f in w.tag && v.tag[f] == w.tag[f]
    ensures NodeAt(v, place, WithSide(t, direction, sub))
  {
  }

  /** A tree is still stored after changes to fields of three kinds, none of them its own. */
  lemma ThreeElsewhere(w: Wiring, v: Wiring, place: map<int, nat>, t: Tree, a: set<nat>, b: set<nat>, f: nat)
    requires Stored(w, place, t) && OnlyChanges(w, v, a + b + {f})
    requires a !! Footprint(place, t) && b !! Footprint(place, t) && f !in Footprint(place, t)
    ensures Stored(v, place, t)
  {
    StoredElsewhere(w, v, place, t, a + b + {f});
  }
}
