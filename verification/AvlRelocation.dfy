/**
 An AVL tree moved in memory: the block that holds its nodes is copied to another address, the child
 fields unchanged, and the root pointer adjusted.
 */
module AvlRelocation {
  import opened MachineInts
  import opened SelfRelative
  import opened AvlTree
  import W = AvlWiring

  /** Where a pointer leads after a move by `delta`: NULL stays NULL. */
  function Shift(x: nat, delta: nat): nat {
    if x == 0 then 0 else if x + delta < TWO64 then x + delta else x + delta - TWO64
  }

  /** No field of the block lands on address 0. */
  predicate CanShift(fields: set<nat>, delta: nat) {
    IsWord(delta) && Aligned(delta) && forall f | f in fields :: IsWord(f) && (f != 0 ==> Shift(f, delta) != 0)
  }

  lemma ShiftInjective(fields: set<nat>, delta: nat)
    requires CanShift(fields, delta)
    ensures forall f, g | f in fields && g in fields && f != g :: Shift(f, delta) != Shift(g, delta)
  {
    forall f, g | f in fields && g in fields && f != g
      ensures Shift(f, delta) != Shift(g, delta)
    {
      assert IsWord(f) && IsWord(g);
    }
  }

  function MoveLinks(link: map<nat, nat>, delta: nat): map<nat, nat>
    requires CanShift(link.Keys, delta)
  {
    ShiftInjective(link.Keys, delta);
    map f | f in link :: Shift(f, delta) := Shift(link[f], delta)
  }

  function MoveTags(tag: map<nat, Bits>, delta: nat): map<nat, Bits>
    requires CanShift(tag.Keys, delta)
  {
    ShiftInjective(tag.Keys, delta);
    map f | f in tag :: Shift(f, delta) := tag[f]
  }

  /** What the fields hold after the move: every link leads to the new place of its target. */
  function MoveWiring(w: W.Wiring, delta: nat): W.Wiring
    requires CanShift(w.link.Keys, delta) && w.link.Keys == w.tag.Keys
  {
    W.Wiring(MoveLinks(w.link, delta), MoveTags(w.tag, delta))
  }

  /** The new places of the nodes, and the keys by new address. */
  function MovePlace(place: map<int, nat>, delta: nat): map<int, nat> {
    map k | k in place :: Shift(place[k], delta)
  }

  function MoveKeyOf(keyOf: map<nat, int>, delta: nat): map<nat, int>
    requires CanShift(keyOf.Keys, delta)
  {
    ShiftInjective(keyOf.Keys, delta);
    map a | a in keyOf :: Shift(a, delta) := keyOf[a]
  }

  lemma WiringAt(w: W.Wiring, delta: nat, f: nat)
    requires CanShift(w.link.Keys, delta) && w.link.Keys == w.tag.Keys && f in w.link
    ensures var v, g := MoveWiring(w, delta), Shift(f, delta);
            && g in v.link && v.link[g] == Shift(w.link[f], delta) && g in v.tag && v.tag[g] == w.tag[f]
  {
  }

  lemma WiringKeys(w: W.Wiring, delta: nat, g: nat) returns (f: nat)
    requires CanShift(w.link.Keys, delta) && w.link.Keys == w.tag.Keys && g in MoveWiring(w, delta).link
    ensures f in w.link && g == Shift(f, delta)
  {
    f :| f in w.link && g == Shift(f, delta);
  }

  lemma SameKeys(w: W.Wiring, delta: nat)
    requires CanShift(w.link.Keys, delta) && w.link.Keys == w.tag.Keys
    ensures MoveWiring(w, delta).link.Keys == MoveWiring(w, delta).tag.Keys
  {
    var v := MoveWiring(w, delta);
    forall g
      ensures g in v.link <==> g in v.tag
    {
      if g in v.link {
        var f := WiringKeys(w, delta, g);
        WiringAt(w, delta, f);
      }
      if g in v.tag {
        var f :| f in w.tag && g == Shift(f, delta);
        WiringAt(w, delta, f);
      }
    }
  }

  /** The second field of a node stays the second field. */
  lemma ShiftNext(a: nat, delta: nat)
    requires W.GoodAddress(a) && W.GoodAddress(Shift(a, delta)) && IsWord(delta)
    ensures Shift(a + W.WORD, delta) == Shift(a, delta) + W.WORD
  {
  }

  /** Every node of the pool fits at its new address. */
  predicate NodesFit(nodes: set<nat>, delta: nat) {
    forall a {:trigger W.GoodAddress(a)} | a in nodes :: W.GoodAddress(a) && W.GoodAddress(Shift(a, delta))
  }

  predicate PlacesFit(place: map<int, nat>, delta: nat) {
    forall k {:trigger place[k]} | k in place :: W.GoodAddress(place[k]) && W.GoodAddress(Shift(place[k], delta))
  }

  lemma AddrMoves(place: map<int, nat>, t: Tree, delta: nat)
    requires PlacesFit(place, delta)
    ensures W.Addr(MovePlace(place, delta), t) == Shift(W.Addr(place, t), delta)
  {
  }

  lemma NodeMoves(w: W.Wiring, place: map<int, nat>, t: Tree, delta: nat)
    requires CanShift(w.link.Keys, delta) && w.link.Keys == w.tag.Keys && PlacesFit(place, delta)
    requires t.Node? && t.key in place && W.NodeAt(w, place, t)
    ensures W.NodeAt(MoveWiring(w, delta), MovePlace(place, delta), t)
  {
    var a := place[t.key];
    ShiftNext(a, delta);
    WiringAt(w, delta, a);
    WiringAt(w, delta, a + W.WORD);
    AddrMoves(place, t.left, delta);
    AddrMoves(place, t.right, delta);
  }

  /** The tree that was stored at the old places is stored at the new ones: same keys, same shape, same balances. */
  lemma {:induction false} TreeMoves(w: W.Wiring, place: map<int, nat>, t: Tree, delta: nat)
    requires CanShift(w.link.Keys, delta) && w.link.Keys == w.tag.Keys && PlacesFit(place, delta)
    requires W.Stored(w, place, t)
    ensures W.Stored(MoveWiring(w, delta), MovePlace(place, delta), t)
  {
    if t.Node? {
      NodeMoves(w, place, t, delta);
      TreeMoves(w, place, t.left, delta);
      TreeMoves(w, place, t.right, delta);
    }
  }

  /** A child field read at its new address. */
  lemma FieldMoves(field: nat, f: nat, delta: nat)
    requires IsWord(f) && f != 0 && Aligned(f) && IsWord(delta) && Aligned(delta) && Shift(f, delta) != 0
    requires SrpGetNode(field, f) == 0 ==> GetNode(field) == 0
    ensures Shift(f, delta) == Moved(f, delta) && Aligned(Shift(f, delta))
    ensures SrpGetNode(field, Shift(f, delta)) == Shift(SrpGetNode(field, f), delta)
  {
    MovedRead(field, f, delta);
  }

  /** The adjusted root pointer. */
  function MoveRoot(rootNode: nat, delta: nat): nat {
    OrTag(Tag(rootNode), Shift(GetNode(rootNode), delta))
  }

  lemma RootMoves(rootNode: nat, delta: nat)
    requires Aligned(delta)
    ensures GetNode(MoveRoot(rootNode, delta)) == Shift(GetNode(rootNode), delta)
    ensures Tag(MoveRoot(rootNode, delta)) == Tag(rootNode)
  {
    assert Aligned(Shift(GetNode(rootNode), delta));
    OrTagParts(Tag(rootNode), Shift(GetNode(rootNode), delta));
  }
}
