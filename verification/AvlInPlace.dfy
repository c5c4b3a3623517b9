/**
 The AVL tree of util/avl/avlsup.c in place: nodes at fixed addresses, linked by self-relative fields that
 carry the balances in their tags. Every operation is proved to leave in memory exactly the tree that the
 operation of the same name in `AvlTree` computes, and to touch no other field.
 */
module AvlInPlace {
  import opened MachineInts
  import opened Options
  import opened SelfRelative
  import opened AvlTree
  import opened AvlRelocation
  import W = AvlWiring

  /** A field that may lead to the node at `target`: the root pointer, or one that does not overlap that node. */
  predicate MayLink(field: nat, target: nat) {
    IsWord(target) && Aligned(target) && (field == 0 || target != field)
  }

  /** `slot` is the root pointer, or a field of the node of `owner`, which is not in `t`. */
  predicate SlotOf(place: map<int, nat>, t: Tree, slot: nat, owner: Option<int>) {
    match owner
    case None => slot == 0
    case Some(k) => k in place && k !in W.Keys(t) && slot in W.Fields(place, k)
  }

  /** The tree below a slot has become `u`; at most the given fields and the slot's link have changed. */
  predicate SlotIs(w: W.Wiring, v: W.Wiring, place: map<int, nat>, slot: nat, u: Tree, fields: set<nat>) {
    && W.Stored(v, place, u) && slot in v.link && v.link[slot] == W.Addr(place, u)
    && slot in w.tag && slot in v.tag && v.tag[slot] == w.tag[slot]
    && W.OnlyChanges(w, v, fields + {slot})
  }

  /** The word at address `f`, or the root pointer, is what `w` says. */
  predicate FieldHolds(rootNode: nat, fields: map<nat, nat>, w: W.Wiring, f: nat)
    requires f in w.link && f in w.tag
  {
    if f == 0 then GetNode(rootNode) == w.link[0] && Tag(rootNode) == w.tag[0]
    else
      && f in fields && IsWord(f) && Aligned(f)
      && SrpGetNode(fields[f], f) == w.link[f] && GetBalance(fields[f]) == w.tag[f]
      && (w.link[f] == 0 ==> GetNode(fields[f]) == 0)
  }

  lemma {:induction false} ZeroOff(place: map<int, nat>, t: Tree)
    requires W.GoodPlace(place)
    ensures 0 !in W.Footprint(place, t)
  {
    if t.Node? {
      assert t.key in place ==> W.GoodAddress(place[t.key]);
      ZeroOff(place, t.left);
      ZeroOff(place, t.right);
    }
  }

  lemma SlotOff(place: map<int, nat>, t: Tree, slot: nat, owner: Option<int>)
    requires W.GoodPlace(place) && SlotOf(place, t, slot, owner)
    ensures slot !in W.Footprint(place, t)
  {
    if owner.Some? {
      W.OffFootprint(place, t, owner.value);
    } else {
      ZeroOff(place, t);
    }
  }

  /** A slot may lead to any node but its own. */
  lemma SlotMayLink(place: map<int, nat>, slot: nat, owner: Option<int>, k: int)
    requires W.GoodPlace(place) && SlotOf(place, Nil, slot, owner) && k in place && owner != Some(k)
    ensures MayLink(slot, place[k])
  {
    assert W.GoodAddress(place[k]);
    if owner.Some? {
      assert W.ClearOf(place, owner.value, k);
    }
  }

  /** The fields of a node may lead to the root of a tree without it. */
  lemma NodeMayLink(w: W.Wiring, place: map<int, nat>, k: int, t: Tree)
    requires W.GoodPlace(place) && k in place && k !in W.Keys(t) && W.Stored(w, place, t)
    ensures MayLink(place[k], W.Addr(place, t)) && MayLink(place[k] + W.WORD, W.Addr(place, t))
  {
    assert W.GoodAddress(place[k]);
    if t.Node? {
      assert W.GoodAddress(place[t.key]) && W.ClearOf(place, k, t.key);
    }
  }

  /** Leading a slot elsewhere does not disturb a tree that the slot is no part of. */
  lemma SlotWritten(w: W.Wiring, place: map<int, nat>, t: Tree, slot: nat, owner: Option<int>, target: nat)
    requires W.GoodPlace(place) && SlotOf(place, t, slot, owner) && W.Stored(w, place, t)
    requires slot in w.link && w.link.Keys == w.tag.Keys
    ensures W.Stored(W.SetLink(w, slot, target), place, t) && W.OnlyChanges(w, W.SetLink(w, slot, target), {slot})
  {
    SlotOff(place, t, slot, owner);
    W.StoredElsewhere(w, W.SetLink(w, slot, target), place, t, {slot});
  }

  /** What `rotate` finds in memory. */
  lemma RotateReady(w: W.Wiring, place: map<int, nat>, t: Tree, direction: int)
    requires W.Sound(w, place, t) && t.Node? && direction != 0 && Side(t, -direction).Node?
    ensures t.key in place && Side(t, -direction).key in place
    ensures
      var heavy := Side(t, -direction);
      var a, h := place[t.key], place[heavy.key];
      var f, g := W.ChildField(place, t, -direction), W.ChildField(place, heavy, direction);
      && a != h && a != 0 && h != 0 && a in w.link && h in w.link && f in w.link && g in w.link
      && w.link[f] == h && w.link[g] == W.Addr(place, Side(heavy, direction))
      && h in w.tag && w.tag[h] == W.Code(heavy.balance) && f != g
      && MayLink(f, W.Addr(place, Side(heavy, direction))) && MayLink(g, a)
  {
    var heavy := Side(t, -direction);
    W.SoundSide(w, place, t, -direction);
    W.SoundSide(w, place, heavy, direction);
    W.OffParts(heavy, direction, t.key);
    NodeMayLink(w, place, t.key, Side(heavy, direction));
    SlotMayLink(place, W.ChildField(place, heavy, direction), Some(heavy.key), t.key);
    assert W.GoodAddress(place[t.key]) && W.GoodAddress(place[heavy.key]) && W.ClearOf(place, t.key, heavy.key);
  }

  /** What `doubleRotate` finds in memory: the three nodes and the two grafts. */
  lemma DoubleReady(w: W.Wiring, place: map<int, nat>, t: Tree, direction: int)
    requires W.Sound(w, place, t) && W.HasInner(t, direction)
    ensures W.InnerPlaced(place, t, direction)
    ensures
      var heavy := Side(t, -direction);
      var top := Side(heavy, direction);
      var a, h, k := place[t.key], place[heavy.key], place[top.key];
      && a != 0 && h != 0 && k != 0 && a in w.link && h in w.link && k in w.link
      && a + W.WORD in w.link && h + W.WORD in w.link && k + W.WORD in w.link
      && W.ClearOf(place, t.key, heavy.key) && W.ClearOf(place, t.key, top.key) && W.ClearOf(place, heavy.key, top.key)
      && w.link[W.ChildField(place, t, -direction)] == h && w.link[W.ChildField(place, heavy, direction)] == k
      && w.link[W.ChildField(place, top, direction)] == W.Addr(place, Side(top, direction))
      && w.link[W.ChildField(place, top, -direction)] == W.Addr(place, Side(top, -direction))
      && k in w.tag && w.tag[k] == W.Code(top.balance)
      && MayLink(W.ChildField(place, heavy, direction), W.Addr(place, Side(top, -direction)))
      && MayLink(W.ChildField(place, t, -direction), W.Addr(place, Side(top, direction)))
      && MayLink(W.ChildField(place, top, -direction), h) && MayLink(W.ChildField(place, top, direction), a)
  {
    var heavy := Side(t, -direction);
    var top := Side(heavy, direction);
    W.SoundSide(w, place, t, -direction);
    W.SoundSide(w, place, heavy, direction);
    W.SoundSide(w, place, top, direction);
    W.SoundSide(w, place, top, -direction);
    W.OffParts(heavy, direction, t.key);
    W.OffParts(top, direction, t.key);
    W.OffParts(top, direction, heavy.key);
    NodeMayLink(w, place, heavy.key, Side(top, -direction));
    NodeMayLink(w, place, t.key, Side(top, direction));
    SlotMayLink(place, W.ChildField(place, top, -direction), Some(top.key), heavy.key);
    SlotMayLink(place, W.ChildField(place, top, direction), Some(top.key), t.key);
    assert W.GoodAddress(place[t.key]) && W.GoodAddress(place[heavy.key]) && W.GoodAddress(place[top.key]);
    assert W.ClearOf(place, t.key, heavy.key) && W.ClearOf(place, t.key, top.key);
    assert W.ClearOf(place, heavy.key, top.key);
  }

  class AvlArena {
    /** `rootNode` of the tree, a plain pointer; the child fields by address; the key of the node at an address. */
    var rootNode: nat
    var fields: map<nat, nat>
    const keyOf: map<nat, int>
    /** What the fields hold; the tree; where the node of each of its keys is. */
    ghost var w: W.Wiring
    ghost var tree: Tree
    ghost var place: map<int, nat>

    // -------------------------------------------------------------------------------------
    // Fields
    // -------------------------------------------------------------------------------------

    ghost predicate FieldOk(f: nat)
      requires f in w.link && f in w.tag
      reads this`rootNode, this`fields, this`w
    {
      FieldHolds(rootNode, fields, w, f)
    }

    /** The words in memory are what `w` says. */
    ghost predicate Wired()
      reads this`rootNode, this`fields, this`w
    {
      && 0 in w.link && w.link.Keys == w.tag.Keys
      && forall f {:trigger FieldOk(f)} | f in w.link :: FieldOk(f)
    }

    /** AVL_GETNODE for the root pointer, AVL_SRP_GETNODE for a child field. */
    method ReadLink(f: nat) returns (node: nat)
      requires Wired() && f in w.link
      ensures node == w.link[f]
    {
      assert FieldOk(f);
      node := if f == 0 then GetNode(rootNode) else SrpGetNode(fields[f], f);
    }

    /** AVL_SETNODE for the root pointer, AVL_SRP_SETNODE for a child field. */
    method WriteLink(f: nat, target: nat)
      requires Wired() && f in w.link && MayLink(f, target)
      modifies this`rootNode, this`fields, this`w
      ensures Wired() && w == W.SetLink(old(w), f, target)
    {
      assert FieldOk(f);
      if f == 0 {
        OrTagParts(Tag(rootNode), target);
        rootNode := OrTag(Tag(rootNode), target);
      } else {
        AssignKeepsOther(fields[f], f, ToNode(target));
        AssignNull(fields[f], f, ToNode(target));
        fields := fields[f := SrpSetNode(fields[f], f, target)];
      }
      w := W.SetLink(w, f, target);
      forall g | g in w.link
        ensures FieldOk(g)
      {
        assert old(FieldOk(g));
      }
    }

    /** AVL_SRP_SET_TO_NULL */
    method ClearLink(f: nat)
      requires Wired() && f in w.link && f != 0
      modifies this`rootNode, this`fields, this`w
      ensures Wired() && w == W.SetLink(old(w), f, 0)
    {
      assert FieldOk(f);
      AssignKeepsOther(fields[f], f, ToNull);
      AssignNull(fields[f], f, ToNull);
      fields := fields[f := SrpSetToNull(fields[f])];
      w := W.SetLink(w, f, 0);
      forall g | g in w.link
        ensures FieldOk(g)
      {
        assert old(FieldOk(g));
      }
    }

    /** AVL_GETBALANCE of the node at `a`. */
    method ReadTag(a: nat) returns (tag: Bits)
      requires Wired() && a in w.link && a != 0
      ensures tag == w.tag[a]
    {
      assert FieldOk(a);
      tag := GetBalance(fields[a]);
    }

    /** AVL_SETBALANCE of the node at `a`. */
    method WriteTag(a: nat, tag: Bits)
      requires Wired() && a in w.link && a != 0
      modifies this`rootNode, this`fields, this`w
      ensures Wired() && w == W.SetTag(old(w), a, tag)
    {
      assert FieldOk(a);
      AssignKeepsOther(fields[a], a, ToBalance(tag));
      AssignNull(fields[a], a, ToBalance(tag));
      fields := fields[a := SetBalance(fields[a], tag)];
      w := W.SetTag(w, a, tag);
      forall g | g in w.link
        ensures FieldOk(g)
      {
        assert old(FieldOk(g));
      }
    }

    // -------------------------------------------------------------------------------------
    // Rotations
    // -------------------------------------------------------------------------------------

    /** The link assignments of `rotate`. */
    method RotateFields(walk: nat, direction: int, ghost place: map<int, nat>, ghost t: Tree) returns (heavy: nat)
      requires Wired() && W.Sound(w, place, t) && t.Node? && direction != 0 && Side(t, -direction).Node?
      requires walk == W.Addr(place, t)
      modifies this`rootNode, this`fields, this`w
      ensures t.key in place && Side(t, -direction).key in place && heavy == place[Side(t, -direction).key]
      ensures walk in w.link && heavy in w.link && heavy in w.tag && walk != 0 && heavy != 0 && walk != heavy
      ensures Wired() && w == W.RotateLinks(old(w), place, t, direction)
      ensures w.tag[heavy] == W.Code(Side(t, -direction).balance)
    {
      RotateReady(w, place, t, direction);
      var heavyPtr := if direction < 0 then walk + W.WORD else walk;
      heavy := ReadLink(heavyPtr);
      var graftPtr := if direction < 0 then heavy else heavy + W.WORD;
      var graft := ReadLink(graftPtr);
      WriteLink(heavyPtr, graft);
      WriteLink(graftPtr, walk);
    }

    /** `rotate` */
    method RotateNodes(walk: nat, direction: int, heightChange: int, ghost place: map<int, nat>, ghost t: Tree)
      returns (top: nat, change: int)
      requires Wired() && W.Sound(w, place, t) && t.Node? && direction != 0 && Side(t, -direction).Node?
      requires walk == W.Addr(place, t)
      modifies this`rootNode, this`fields, this`w
      ensures Wired() && W.OnlyChanges(old(w), w, W.Footprint(place, t))
      ensures W.Stored(w, place, Rotate(t, direction, heightChange).0)
      ensures top == W.Addr(place, Rotate(t, direction, heightChange).0)
      ensures change == Rotate(t, direction, heightChange).1
    {
      top := RotateFields(walk, direction, place, t);
      change := heightChange;
      ghost var hb, wb := Balanced, Balanced;
      var tag := ReadTag(top);
      if tag != 0 {
        if change > 0 {
          change := 0;
        }
        WriteTag(top, 0);
        WriteTag(walk, 0);
      } else {
        change := 0;
        if direction < 0 {
          hb, wb := LeftHeavy, RightHeavy;
          WriteTag(top, 1);
          WriteTag(walk, 2);
        } else {
          hb, wb := RightHeavy, LeftHeavy;
          WriteTag(top, 2);
          WriteTag(walk, 1);
        }
      }
      W.RotateWiringParts(old(w), place, t, direction, hb, wb);
      W.RotateStored(old(w), place, t, direction, hb, wb);
      W.RotateShape(t, direction, heightChange);
    }

    /** The link assignments of `doubleRotate`. */
    method DoubleRotateFields(walk: nat, direction: int, ghost place: map<int, nat>, ghost t: Tree)
      returns (heavy: nat, top: nat)
      requires Wired() && W.Sound(w, place, t) && W.HasInner(t, direction) && walk == W.Addr(place, t)
      modifies this`rootNode, this`fields, this`w
      ensures W.InnerPlaced(place, t, direction) && Wired() && w == W.DoubleRotateLinks(old(w), place, t, direction)
      ensures heavy == place[Side(t, -direction).key] && top == place[Side(Side(t, -direction), direction).key]
      ensures walk in w.link && heavy in w.link && top in w.link && walk != 0 && heavy != 0 && top != 0
      ensures walk != heavy && walk != top && heavy != top
      ensures top in w.tag && w.tag[top] == W.Code(Side(Side(t, -direction), direction).balance)
    {
      DoubleReady(w, place, t, direction);
      ghost var h, k := Side(t, -direction), Side(Side(t, -direction), direction);
      var heavyPtr := if direction < 0 then walk + W.WORD else walk;
      heavy := ReadLink(heavyPtr);
      var topPtr := if direction < 0 then heavy else heavy + W.WORD;
      top := ReadLink(topPtr);
      var graft1Ptr := if direction < 0 then top + W.WORD else top;
      var graft2Ptr := if direction < 0 then top else top + W.WORD;
      assert heavyPtr == W.ChildField(place, t, -direction) && topPtr == W.ChildField(place, h, direction);
      assert graft1Ptr == W.ChildField(place, k, -direction) && graft2Ptr == W.ChildField(place, k, direction);
      assert graft2Ptr != topPtr && graft2Ptr != graft1Ptr;
      var graft1 := ReadLink(graft1Ptr);
      WriteLink(topPtr, graft1);
      WriteLink(graft1Ptr, heavy);
      var graft2 := ReadLink(graft2Ptr);
      WriteLink(heavyPtr, graft2);
      WriteLink(graft2Ptr, walk);
    }

    /** `doubleRotate` */
    method DoubleRotateNodes(walk: nat, direction: int, heightChange: int, ghost place: map<int, nat>, ghost t: Tree)
      returns (top: nat, change: int)
      requires Wired() && W.Sound(w, place, t) && W.HasInner(t, direction) && walk == W.Addr(place, t)
      modifies this`rootNode, this`fields, this`w
      ensures Wired() && W.OnlyChanges(old(w), w, W.Footprint(place, t))
      ensures W.Stored(w, place, DoubleRotate(t, direction, heightChange).0)
      ensures top == W.Addr(place, DoubleRotate(t, direction, heightChange).0)
      ensures change == DoubleRotate(t, direction, heightChange).1
    {
      var heavy;
      heavy, top := DoubleRotateFields(walk, direction, place, t);
      ghost var b := Side(Side(t, -direction), direction).balance;
      ghost var (hb, wb) := W.DoubleBalances(b, direction);
      DoubleRotateTags(walk, heavy, top, direction, b);
      change := if heightChange > 0 then 0 else heightChange;
      W.DoubleRotateWiringParts(old(w), place, t, direction, hb, wb);
      W.DoubleRotateStored(old(w), place, t, direction, hb, wb);
      W.DoubleRotateShape(t, direction, heightChange);
    }

    /** The balance assignments of `doubleRotate`. */
    method DoubleRotateTags(walk: nat, heavy: nat, top: nat, direction: int, ghost b: Balance)
      requires Wired() && walk in w.link && heavy in w.link && top in w.link && walk != 0 && heavy != 0 && top != 0
      requires walk != heavy && walk != top && heavy != top && w.tag[top] == W.Code(b)
      modifies this`rootNode, this`fields, this`w
      ensures
        var (hb, wb) := W.DoubleBalances(b, direction);
        Wired() && w == W.SetTag(W.SetTag(W.SetTag(old(w), heavy, W.Code(hb)), walk, W.Code(wb)), top, 0)
    {
      var tag := ReadTag(top);
      if tag == 0 {
        WriteTag(heavy, 0);
        WriteTag(walk, 0);
      } else if tag == 1 {
        if direction < 0 {
          WriteTag(heavy, 2);
          WriteTag(walk, 0);
        } else {
          WriteTag(heavy, 0);
          WriteTag(walk, 2);
        }
      } else if direction < 0 {
        WriteTag(heavy, 0);
        WriteTag(walk, 1);
      } else {
        WriteTag(heavy, 1);
        WriteTag(walk, 0);
      }
      WriteTag(top, 0);
    }

    // -------------------------------------------------------------------------------------
    // Rebalancing
    // -------------------------------------------------------------------------------------

    /** The rotations of `rebalance`, with the slot led to the new root. */
    method RotateSlot(slot: nat, walk: nat, side: int, heightChange: int,
                      ghost place: map<int, nat>, ghost t: Tree, ghost owner: Option<int>)
      returns (change: int)
      requires Wired() && W.Sound(w, place, t) && t.Node? && side != 0 && walk == W.Addr(place, t)
      requires SlotOf(place, t, slot, owner) && slot in w.link
      requires Side(t, side).Node?
      requires Side(t, side).balance == (if side < 0 then RightHeavy else LeftHeavy) ==>
                 Side(Side(t, side), -side).Node?
      modifies this`rootNode, this`fields, this`w
      ensures
        var double := Side(t, side).balance == (if side < 0 then RightHeavy else LeftHeavy);
        var (u, c) := if double then DoubleRotate(t, -side, heightChange) else Rotate(t, -side, heightChange);
        Wired() && SlotIs(old(w), w, place, slot, u, W.Footprint(place, t)) && change == c
    {
      W.SoundSide(w, place, t, side);
      assert W.GoodAddress(place[t.key]) && W.GoodAddress(place[Side(t, side).key]);
      SlotOff(place, t, slot, owner);
      var heavy := ReadLink(if side < 0 then walk else walk + W.WORD);
      var tag := ReadTag(heavy);
      var top;
      ghost var u: Tree;
      if tag == (if side < 0 then 2 else 1) {
        top, change := DoubleRotateNodes(walk, -side, heightChange, place, t);
        u := DoubleRotate(t, -side, heightChange).0;
      } else {
        top, change := RotateNodes(walk, -side, heightChange, place, t);
        u := Rotate(t, -side, heightChange).0;
      }
      ghost var v := w;
      assert W.SameAt(old(w), v, slot);
      RotatedSlot(place, t, side, heightChange, slot, owner);
      SlotMayLink(place, slot, owner, u.key);
      SlotWritten(v, place, u, slot, owner, top);
      WriteLink(slot, top);
      W.OnlyChangesChain(old(w), v, w, W.Footprint(place, t), {slot});
    }

    /** `rebalance` */
    method RebalanceSlot(slot: nat, direction: int, heightChange: int,
                         ghost place: map<int, nat>, ghost t: Tree, ghost owner: Option<int>)
      returns (change: int)
      requires Wired() && W.Sound(w, place, t) && t.Node? && direction != 0 && CanRebalance(t, direction, heightChange)
      requires SlotOf(place, t, slot, owner) && slot in w.link && w.link[slot] == W.Addr(place, t)
      modifies this`rootNode, this`fields, this`w
      ensures Wired()
      ensures SlotIs(old(w), w, place, slot, Rebalance(t, direction, heightChange).0, W.Footprint(place, t))
      ensures change == Rebalance(t, direction, heightChange).1
    {
      change := heightChange;
      if heightChange == 0 {
        return;
      }
      SlotOff(place, t, slot, owner);
      assert W.NodeAt(w, place, t) && W.GoodAddress(place[t.key]);
      var side := if heightChange < 0 then -direction else direction;
      var walk := ReadLink(slot);
      var tag := ReadTag(walk);
      if tag == 0 {
        W.StoredTag(w, place, t, if side < 0 then LeftHeavy else RightHeavy);
        WriteTag(walk, if side < 0 then 1 else 2);
        if change < 0 {
          change := 0;
        }
      } else if (tag == 1) == (side < 0) {
        change := RotateSlot(slot, walk, side, heightChange, place, t, owner);
        return;
      } else {
        W.StoredTag(w, place, t, Balanced);
        WriteTag(walk, 0);
        if change > 0 {
          change := 0;
        }
      }
      assert W.SameAt(old(w), w, slot);
      W.OnlyChangesMore(old(w), w, W.Footprint(place, t), W.Footprint(place, t) + {slot});
    }

    // -------------------------------------------------------------------------------------
    // Insertion
    // -------------------------------------------------------------------------------------

    /** The end of an insertion or deletion below a slot: rebalance if the subtree changed. */
    method SettleSlot(slot: nat, direction: int, heightChange: int, ghost place: map<int, nat>, ghost x: Tree,
                      ghost owner: Option<int>, ghost w0: W.Wiring, ghost fields: set<nat>)
      returns (change: int)
      requires Wired() && W.Sound(w, place, x) && x.Node? && direction != 0 && CanRebalance(x, direction, heightChange)
      requires SlotOf(place, x, slot, owner) && W.SameAt(w0, w, slot) && w.link[slot] == W.Addr(place, x)
      requires W.OnlyChanges(w0, w, fields) && W.Footprint(place, x) <= fields
      modifies this`rootNode, this`fields, this`w
      ensures Wired() && SlotIs(w0, w, place, slot, Rebalance(x, direction, heightChange).0, fields)
      ensures change == Rebalance(x, direction, heightChange).1
      ensures W.OnlyChanges(old(w), w, W.Footprint(place, x) + {slot})
    {
      change := RebalanceSlot(slot, direction, heightChange, place, x, owner);
      W.OnlyChangesChain(w0, old(w), w, fields, W.Footprint(place, x) + {slot});
      W.OnlyChangesMore(w0, w, fields + (W.Footprint(place, x) + {slot}), fields + {slot});
    }

    /** `insertNode`; `place` already has the new node under its key if that is not in the tree. */
    method InsertSlot(slot: nat, node: nat, ghost place: map<int, nat>, ghost t: Tree, ghost owner: Option<int>)
      returns (find: nat, change: int)
      requires Wired() && W.Sound(w, place, t) && Avl(t) && Sorted(InOrder(t)) && Labelled(keyOf, place)
      requires SlotOf(place, t, slot, owner) && slot in w.link && w.link[slot] == W.Addr(place, t)
      requires node in keyOf && keyOf[node] in place && owner != Some(keyOf[node])
      requires keyOf[node] !in W.Keys(t) ==> place[keyOf[node]] == node && W.Stored(w, place, Leaf(keyOf[node]))
      modifies this`rootNode, this`fields, this`w
      ensures Wired() && find == place[keyOf[node]]
      ensures SlotIs(old(w), w, place, slot, InsertNode(t, keyOf[node]).0,
                     W.Footprint(place, t) + W.Fields(place, keyOf[node]))
      ensures change == InsertNode(t, keyOf[node]).1 && (!InsertNode(t, keyOf[node]).2 ==> w == old(w))
      decreases t, 1
    {
      ghost var key := keyOf[node];
      assert t.Node? ==> W.GoodAddress(place[t.key]);
      assert W.GoodAddress(place[key]);
      var walk := ReadLink(slot);
      if walk == 0 {
        SlotMayLink(place, slot, owner, key);
        SlotWritten(w, place, Leaf(key), slot, owner, node);
        WriteLink(slot, node);
        W.OnlyChangesMore(old(w), w, {slot}, W.Footprint(place, t) + W.Fields(place, key) + {slot});
        return node, 1;
      }
      if keyOf[node] == keyOf[walk] {
        return walk, 0;
      }
      find, change := InsertBelow(slot, walk, node, place, t, owner);
    }

    /** `insertNode` at a node with another key. */
    method InsertBelow(slot: nat, walk: nat, node: nat,
                       ghost place: map<int, nat>, ghost t: Tree, ghost owner: Option<int>)
      returns (find: nat, change: int)
      requires Wired() && W.Sound(w, place, t) && Avl(t) && Sorted(InOrder(t)) && Labelled(keyOf, place)
      requires SlotOf(place, t, slot, owner) && slot in w.link && w.link[slot] == W.Addr(place, t)
      requires node in keyOf && keyOf[node] in place && owner != Some(keyOf[node])
      requires keyOf[node] !in W.Keys(t) ==> place[keyOf[node]] == node && W.Stored(w, place, Leaf(keyOf[node]))
      requires t.Node? && walk == W.Addr(place, t) && keyOf[node] != t.key
      modifies this`rootNode, this`fields, this`w
      ensures Wired() && find == place[keyOf[node]]
      ensures SlotIs(old(w), w, place, slot, InsertNode(t, keyOf[node]).0,
                     W.Footprint(place, t) + W.Fields(place, keyOf[node]))
      ensures change == InsertNode(t, keyOf[node]).1 && (!InsertNode(t, keyOf[node]).2 ==> w == old(w))
      decreases t, 0
    {
      ghost var key := keyOf[node];
      InsertChildReady(w, place, t, key);
      var direction := if keyOf[node] < keyOf[walk] then -1 else 1;
      var child := if direction < 0 then walk else walk + W.WORD;
      find, change := InsertSlot(child, node, place, Side(t, direction), Some(t.key));
      InsertedKeys(t, key);
      TurnedAway(t, key);
      KeyFieldsClear(place, t, direction, key);
      SlotClearOf(place, slot, owner, key);
      ghost var fields := W.Footprint(place, t) + W.Fields(place, key);
      ghost var sub := InsertNode(Side(t, direction), key).0;
      ChildDone(old(w), w, place, t, direction, sub, key, W.Fields(place, key), slot, owner);
      InsertStep(t, key);
      if find == node && change != 0 {
        change := SettleSlot(slot, direction, change, place, Inserted(t, key), owner, old(w), fields);
      } else {
        InsertedOrFound(t, key);
        assert InsertNode(t, key).0 == Inserted(t, key);
        W.OnlyChangesMore(old(w), w, fields, fields + {slot});
      }
    }

    // -------------------------------------------------------------------------------------
    // Deletion
    // -------------------------------------------------------------------------------------

    /** A slot takes over the only subtree of the node it leads to, and the node's link is cleared. */
    method BypassNode(slot: nat, walk: nat, direction: int,
                      ghost place: map<int, nat>, ghost t: Tree, ghost owner: Option<int>)
      requires Wired() && W.Sound(w, place, t) && t.Node? && direction != 0 && Side(t, -direction).Nil?
      requires SlotOf(place, t, slot, owner) && slot in w.link && walk == W.Addr(place, t)
      modifies this`rootNode, this`fields, this`w
      ensures Wired() && SlotIs(old(w), w, place, slot, Side(t, direction), W.Footprint(place, t)) && Unlinked(w, walk)
    {
      NodeMayLinkSlot(w, place, slot, owner, t);
      NodeBypassed(w, place, slot, owner, t, direction);
      assert W.NodeAt(w, place, t) && W.GoodAddress(place[t.key]);
      var field := if direction < 0 then walk else walk + W.WORD;
      var child := ReadLink(field);
      WriteLink(slot, child);
      ClearLink(field);
    }

    /** `findRightMostLeaf`: takes the greatest node out of the tree below a slot and clears its links. */
    method TakeRightMostSlot(slot: nat, ghost place: map<int, nat>, ghost t: Tree, ghost owner: Option<int>)
      returns (find: nat, change: int)
      requires Wired() && W.Sound(w, place, t) && Avl(t) && Sorted(InOrder(t))
      requires SlotOf(place, t, slot, owner) && slot in w.link && w.link[slot] == W.Addr(place, t)
      modifies this`rootNode, this`fields, this`w
      ensures Wired()
      ensures t.Nil? ==> find == 0 && change == 0 && w == old(w)
      ensures t.Node? ==> TakenFrom(old(w), w, place, slot, t, find, change)
      decreases t
    {
      assert t.Node? ==> W.GoodAddress(place[t.key]);
      var walk := ReadLink(slot);
      if walk == 0 {
        return 0, 0;
      }
      RightReady(w, place, t);
      find, change := TakeRightMostSlot(walk + W.WORD, place, t.right, Some(t.key));
      if find == 0 {
        find, change := walk, -1;
        assert t.right.Nil? && w == old(w);
        BypassNode(slot, walk, -1, place, t, owner);
      } else {
        change := TakeAbove(slot, find, change, place, t, owner, old(w));
      }
    }

    /** The same above the subtree that the node was taken from. */
    method TakeAbove(slot: nat, find: nat, heightChange: int,
                     ghost place: map<int, nat>, ghost t: Tree, ghost owner: Option<int>, ghost w0: W.Wiring)
      returns (change: int)
      requires Wired() && W.Sound(w0, place, t) && t.Node? && t.right.Node? && Avl(t) && Sorted(InOrder(t))
      requires SlotOf(place, t, slot, owner) && slot in w0.link && w0.link[slot] == W.Addr(place, t) && t.key in place
      requires TakenFrom(w0, w, place, place[t.key] + W.WORD, t.right, find, heightChange)
      modifies this`rootNode, this`fields, this`w
      ensures Wired() && TakenFrom(w0, w, place, slot, t, find, change)
    {
      ghost var found, x := TakeReady(w0, w, place, slot, t, owner, find, heightChange);
      change := SettleSlot(slot, 1, heightChange, place, x, owner, w0, W.Footprint(place, t));
      StaysCleared(old(w), w, place, x, slot, owner, found);
    }

    /** The greatest node of the left subtree, already taken out, takes the place of the node to be deleted. */
    method ReplaceByLeaf(slot: nat, walk: nat, leaf: nat,
                         ghost place: map<int, nat>, ghost t: Tree, ghost k: int, ghost owner: Option<int>)
      requires Wired() && W.Sound(w, place, t) && t.Node? && walk == W.Addr(place, t)
      requires k in place && k !in W.Keys(t) && leaf == place[k] && Unlinked(w, leaf)
      requires SlotOf(place, t, slot, owner) && owner != Some(k) && slot in w.link
      modifies this`rootNode, this`fields, this`w
      ensures t.key in place && Wired() && IsReplaced(old(w), w, place, t, k, slot)
    {
      ReplaceReady(w, place, t, k, slot, owner);
      ReplaceFields(slot, walk, leaf, place, t, k);
      ReplaceValues(old(w), place, t, k, slot);
    }

    /** The assignments of the replacement. */
    method ReplaceFields(slot: nat, walk: nat, leaf: nat, ghost place: map<int, nat>, ghost t: Tree, ghost k: int)
      requires Wired() && t.Node? && t.key in place && k in place && walk == place[t.key] && leaf == place[k]
      requires W.NodeAt(w, place, t) && W.ClearOf(place, t.key, k) && walk != 0 && leaf != 0 && Unlinked(w, leaf)
      requires MayLink(leaf, W.Addr(place, t.left)) && MayLink(leaf + W.WORD, W.Addr(place, t.right))
      requires MayLink(slot, leaf) && slot in w.link
      modifies this`rootNode, this`fields, this`w
      ensures Wired() && w == ReplaceWiring(old(w), place, t, k, slot)
    {
      ghost var copied := W.SetLink(W.SetLink(w, leaf, W.Addr(place, t.left)), leaf + W.WORD, W.Addr(place, t.right));
      ghost var v := W.SetTag(copied, leaf, W.Code(t.balance));
      CopyNode(walk, leaf);
      assert w == v;
      Unhook(slot, walk, leaf);
    }

    /** Takes the links out of one node and leads the slot to another. */
    method Unhook(slot: nat, walk: nat, leaf: nat)
      requires Wired() && walk != 0 && {walk, walk + W.WORD, slot} <= w.link.Keys && MayLink(slot, leaf)
      modifies this`rootNode, this`fields, this`w
      ensures Wired() && w == W.SetLink(W.SetLink(W.SetLink(old(w), walk, 0), walk + W.WORD, 0), slot, leaf)
    {
      ClearLink(walk);
      ClearLink(walk + W.WORD);
      WriteLink(slot, leaf);
    }

    /** Gives the node at `leaf` the children and the balance of the one at `walk`. */
    method CopyNode(walk: nat, leaf: nat)
      requires Wired() && walk != 0 && leaf != 0 && walk != leaf && leaf + W.WORD != walk && walk + W.WORD != leaf
      requires {walk, walk + W.WORD, leaf, leaf + W.WORD} <= w.link.Keys
      requires MayLink(leaf, w.link[walk]) && MayLink(leaf + W.WORD, w.link[walk + W.WORD])
      modifies this`rootNode, this`fields, this`w
      ensures Wired()
      ensures
        var left, right := old(w).link[walk], old(w).link[walk + W.WORD];
        w == W.SetTag(W.SetLink(W.SetLink(old(w), leaf, left), leaf + W.WORD, right), leaf, old(w).tag[walk])
    {
      var left := ReadLink(walk);
      WriteLink(leaf, left);
      var right := ReadLink(walk + W.WORD);
      WriteLink(leaf + W.WORD, right);
      var tag := ReadTag(walk);
      WriteTag(leaf, tag);
    }

    /** Deletion of a node with two children. */
    method DeleteInner(slot: nat, walk: nat, ghost place: map<int, nat>, ghost t: Tree, ghost owner: Option<int>)
      returns (change: int)
      requires Wired() && W.Sound(w, place, t) && Avl(t) && Sorted(InOrder(t))
      requires SlotOf(place, t, slot, owner) && slot in w.link && w.link[slot] == W.Addr(place, t)
      requires t.Node? && walk == W.Addr(place, t) && t.left.Node? && t.right.Node?
      modifies this`rootNode, this`fields, this`w
      ensures Wired() && SlotIs(old(w), w, place, slot, DeleteNode(t, t.key).0, W.Footprint(place, t))
      ensures change == DeleteNode(t, t.key).1 && Unlinked(w, walk)
    {
      LeftReady(w, place, t);
      var leaf;
      leaf, change := TakeRightMostSlot(walk, place, t.left, Some(t.key));
      LeafKeys(t);
      ghost var (k, sub, c) := TakeRightMost(t.left);
      ghost var t1 := WithSide(t, -1, sub);
      ghost var v1 := w;
      LeafTaken(old(w), v1, place, t, k, sub, slot, owner);
      ReplaceByLeaf(slot, walk, leaf, place, t1, k, owner);
      ghost var v2 := w;
      Replaced(v1, v2, place, t1, k, slot, owner);
      change := RebalanceSlot(slot, -1, change, place, t1.(key := k), owner);
      StaysCleared(v2, w, place, t1.(key := k), slot, owner, t.key);
      ChangesCompose(old(w), v1, v2, w, place, t, t1, k, slot);
    }

    /** Deletion of the node that a slot leads to. */
    method DeleteRoot(slot: nat, walk: nat, ghost place: map<int, nat>, ghost t: Tree, ghost owner: Option<int>)
      returns (change: int)
      requires Wired() && W.Sound(w, place, t) && Avl(t) && Sorted(InOrder(t))
      requires SlotOf(place, t, slot, owner) && slot in w.link && w.link[slot] == W.Addr(place, t)
      requires t.Node? && walk == W.Addr(place, t)
      modifies this`rootNode, this`fields, this`w
      ensures Wired() && SlotIs(old(w), w, place, slot, DeleteNode(t, t.key).0, W.Footprint(place, t))
      ensures change == DeleteNode(t, t.key).1 && Unlinked(w, walk) && w.tag[walk] == 0
    {
      ChildAddresses(w, place, t);
      var left := ReadLink(walk);
      var right := ReadLink(walk + W.WORD);
      if left == 0 {
        BypassNode(slot, walk, 1, place, t, owner);
        change := -1;
      } else if right == 0 {
        BypassNode(slot, walk, -1, place, t, owner);
        change := -1;
      } else {
        change := DeleteInner(slot, walk, place, t, owner);
      }
      DeletedKey(t, t.key);
      TagCleared(old(w), w, place, slot, t, DeleteNode(t, t.key).0, owner);
      WriteTag(walk, 0);
    }

    /** `deleteNode` */
    method DeleteSlot(slot: nat, key: int, ghost place: map<int, nat>, ghost t: Tree, ghost owner: Option<int>)
      returns (find: nat, change: int)
      requires Wired() && W.Sound(w, place, t) && Avl(t) && Sorted(InOrder(t)) && Labelled(keyOf, place)
      requires SlotOf(place, t, slot, owner) && slot in w.link && w.link[slot] == W.Addr(place, t)
      modifies this`rootNode, this`fields, this`w
      ensures Wired() && DeletedFrom(old(w), w, place, slot, t, key, find, change)
      decreases t, 1
    {
      assert t.Node? ==> W.GoodAddress(place[t.key]);
      var walk := ReadLink(slot);
      if walk == 0 {
        return 0, 0;
      }
      if key == keyOf[walk] {
        change := DeleteRoot(slot, walk, place, t, owner);
        return walk, change;
      }
      find, change := DeleteBelow(slot, walk, key, place, t, owner);
    }

    /** `deleteNode` at a node with another key. */
    method DeleteBelow(slot: nat, walk: nat, key: int,
                       ghost place: map<int, nat>, ghost t: Tree, ghost owner: Option<int>)
      returns (find: nat, change: int)
      requires Wired() && W.Sound(w, place, t) && Avl(t) && Sorted(InOrder(t)) && Labelled(keyOf, place)
      requires SlotOf(place, t, slot, owner) && slot in w.link && w.link[slot] == W.Addr(place, t)
      requires t.Node? && walk == W.Addr(place, t) && key != t.key
      modifies this`rootNode, this`fields, this`w
      ensures Wired() && DeletedFrom(old(w), w, place, slot, t, key, find, change)
      decreases t, 0
    {
      DeleteChildReady(w, place, t, key);
      var direction := if key < keyOf[walk] then -1 else 1;
      var child := if direction < 0 then walk else walk + W.WORD;
      find, change := DeleteSlot(child, key, place, Side(t, direction), Some(t.key));
      if find != 0 {
        change := DeleteAbove(slot, direction, find, change, key, place, t, owner, old(w));
      } else {
        DeleteStep(t, key);
      }
    }

    /** The end of a deletion above the subtree that the node was in. */
    method DeleteAbove(slot: nat, direction: int, find: nat, heightChange: int, ghost key: int,
                       ghost place: map<int, nat>, ghost t: Tree, ghost owner: Option<int>, ghost w0: W.Wiring)
      returns (change: int)
      requires Wired() && W.Sound(w0, place, t) && t.Node? && Avl(t) && Sorted(InOrder(t))
      requires key != t.key && t.key in place
      requires SlotOf(place, t, slot, owner) && slot in w0.link && w0.link[slot] == W.Addr(place, t)
      requires direction == Toward(t, key) && find != 0
      requires DeletedFrom(w0, w, place, W.ChildField(place, t, direction), Side(t, direction), key, find, heightChange)
      modifies this`rootNode, this`fields, this`w
      ensures Wired() && DeletedFrom(w0, w, place, slot, t, key, find, change)
    {
      DeletedKeys(t, key);
      ghost var sub, x := DeleteNode(Side(t, direction), key).0, Deleted(t, key);
      NothingMore(place, t, direction);
      ChildDone(w0, w, place, t, direction, sub, t.key, {}, slot, owner);
      FoundKey(t, key, owner, place, slot);
      DeleteStep(t, key);
      change := SettleSlot(slot, direction, heightChange, place, x, owner, w0, W.Footprint(place, t));
      StaysCleared(old(w), w, place, x, slot, owner, key);
    }

    // -------------------------------------------------------------------------------------
    // The tree as a whole
    // -------------------------------------------------------------------------------------

    ghost predicate Valid()
      reads this`rootNode, this`fields, this`w, this`tree, this`place
    {
      && Wired() && W.Sound(w, place, tree) && Avl(tree) && Sorted(InOrder(tree)) && w.link[0] == W.Addr(place, tree)
      && place.Keys == W.Keys(tree) && Labelled(keyOf, place) && PoolOk(keyOf, w.link.Keys)
      && forall a {:trigger NodeFree(a)} | a in keyOf :: NodeFree(a)
    }

    /** The node at `a` is in the tree, or ready to be inserted. */
    ghost predicate NodeFree(a: nat)
      requires a in keyOf
      reads this`w, this`place
    {
      (keyOf[a] in place && place[keyOf[a]] == a) || (Unlinked(w, a) && w.tag[a] == 0)
    }

    /** An empty tree, and nodes at the given addresses whose fields are all zero. */
    constructor (keyOf: map<nat, int>, addresses: set<nat>)
      requires PoolOk(keyOf, addresses + {0}) && forall f {:trigger GoodField(f)} | f in addresses :: GoodField(f)
      ensures Valid() && tree == Nil && this.keyOf == keyOf
    {
      this.keyOf, rootNode, fields := keyOf, 0, Zeros(addresses);
      w, tree, place := NoLinks(addresses + {0}), Nil, map[];
      new;
      WiredAtFirst(addresses);
      FreeAtFirst(addresses);
      EmptyTree(keyOf, addresses);
    }

    /** Memory with the given contents. */
    constructor Holding(keyOf: map<nat, int>, rootNode: nat, fields: map<nat, nat>,
                        ghost w: W.Wiring, ghost tree: Tree, ghost place: map<int, nat>)
      ensures this.keyOf == keyOf && this.rootNode == rootNode && this.fields == fields
      ensures this.w == w && this.tree == tree && this.place == place
    {
      this.keyOf, this.rootNode, this.fields := keyOf, rootNode, fields;
      this.w, this.tree, this.place := w, tree, place;
    }

    /**
     The whole pool moved by `delta`: the child fields are copied as they are, the root pointer is adjusted.
     It holds the same tree, with each node at its new place.
     */
    method Relocate(delta: nat) returns (moved: AvlArena)
      requires Valid() && CanMove(keyOf, fields, w, delta)
      ensures fresh(moved) && moved.Valid() && moved.tree == tree && moved.place == MovePlace(place, delta)
      ensures moved.keyOf == MoveKeyOf(keyOf, delta) && moved.fields == MoveBlock(fields, delta)
      ensures GetNode(moved.rootNode) == Shift(GetNode(rootNode), delta)
    {
      moved := new AvlArena.Holding(MoveKeyOf(keyOf, delta), MoveRoot(rootNode, delta), MoveBlock(fields, delta),
                                    MoveWiring(w, delta), tree, MovePlace(place, delta));
      RootMoves(rootNode, delta);
      moved.MovedIsValid(this, delta);
    }

    lemma MovedIsValid(pool: AvlArena, delta: nat)
      requires pool.Valid() && CanMove(pool.keyOf, pool.fields, pool.w, delta)
      requires keyOf == MoveKeyOf(pool.keyOf, delta) && fields == MoveBlock(pool.fields, delta)
      requires rootNode == MoveRoot(pool.rootNode, delta) && w == MoveWiring(pool.w, delta)
      requires tree == pool.tree && place == MovePlace(pool.place, delta)
      ensures Valid()
    {
      MovedIsWired(pool, delta);
      MovedIsSound(pool, delta);
      MovedNodesFree(pool, delta);
    }

    lemma MovedIsWired(pool: AvlArena, delta: nat)
      requires pool.Wired() && CanMove(pool.keyOf, pool.fields, pool.w, delta)
      requires fields == MoveBlock(pool.fields, delta) && w == MoveWiring(pool.w, delta)
      requires rootNode == MoveRoot(pool.rootNode, delta)
      ensures Wired()
    {
      SameKeys(pool.w, delta);
      WiringAt(pool.w, delta, 0);
      forall g | g in w.link
        ensures FieldOk(g)
      {
        var f := WiringKeys(pool.w, delta, g);
        assert pool.FieldOk(f) && LeadsToNode(pool.keyOf, pool.w, f);
        assert pool.w.link[f] != 0 ==> W.GoodAddress(pool.w.link[f]);
        HoldsMoves(pool.rootNode, pool.fields, pool.w, delta, f);
      }
    }

    lemma MovedIsSound(pool: AvlArena, delta: nat)
      requires pool.Valid() && CanMove(pool.keyOf, pool.fields, pool.w, delta)
      requires keyOf == MoveKeyOf(pool.keyOf, delta) && w == MoveWiring(pool.w, delta)
      requires place == MovePlace(pool.place, delta) && tree == pool.tree
      ensures W.Sound(w, place, tree) && 0 in w.link && w.link[0] == W.Addr(place, tree)
      ensures Labelled(keyOf, place) && PoolOk(keyOf, w.link.Keys) && place.Keys == W.Keys(tree)
    {
      PoolMoves(pool.keyOf, pool.w, delta);
      LabelsMove(pool.keyOf, pool.place, delta);
      PoolPlace(keyOf, w.link.Keys, place);
      SameKeys(pool.w, delta);
      PlacesMove(pool.keyOf, pool.place, delta);
      TreeMoves(pool.w, pool.place, tree, delta);
      AddrMoves(pool.place, tree, delta);
      WiringAt(pool.w, delta, 0);
    }

    lemma MovedNodesFree(pool: AvlArena, delta: nat)
      requires pool.Valid() && CanMove(pool.keyOf, pool.fields, pool.w, delta)
      requires keyOf == MoveKeyOf(pool.keyOf, delta) && w == MoveWiring(pool.w, delta)
      requires place == MovePlace(pool.place, delta)
      ensures forall b {:trigger NodeFree(b)} | b in keyOf :: NodeFree(b)
    {
      forall b | b in keyOf
        ensures NodeFree(b)
      {
        var a :| a in pool.keyOf && b == Shift(a, delta);
        assert pool.NodeFree(a) && W.GoodAddress(a) && NodeIn(a, pool.w.link.Keys);
        KeyMoves(pool.keyOf, delta, a);
        ShiftNext(a, delta);
        WiringAt(pool.w, delta, a);
        WiringAt(pool.w, delta, a + W.WORD);
      }
    }

    lemma WiredAtFirst(addresses: set<nat>)
      requires rootNode == 0 && fields == Zeros(addresses) && w == NoLinks(addresses + {0})
      requires forall f {:trigger GoodField(f)} | f in addresses :: GoodField(f)
      ensures Wired()
    {
      forall f | f in w.link
        ensures FieldOk(f)
      {
        assert f in addresses ==> GoodField(f);
        ZeroField(addresses, f);
      }
    }

    lemma FreeAtFirst(addresses: set<nat>)
      requires w == NoLinks(addresses + {0}) && PoolOk(keyOf, addresses + {0})
      ensures forall a {:trigger NodeFree(a)} | a in keyOf :: NodeFree(a)
    {
      forall a | a in keyOf
        ensures NodeFree(a)
      {
        FreshNode(keyOf, addresses, a);
      }
    }

    /** `avl_insert`: returns the node, or the one that is in the tree under the same key. */
    method AvlInsert(node: nat) returns (find: nat)
      requires Valid() && node in keyOf
      modifies this
      ensures Valid() && tree == InsertNode(old(tree), keyOf[node]).0
      ensures keyOf[node] in place && find == place[keyOf[node]]
      ensures place == if keyOf[node] in old(place) then old(place) else old(place)[keyOf[node] := node]
    {
      ghost var key, t, p := keyOf[node], tree, PlaceWith(place, keyOf[node], node);
      assert NodeFree(node);
      InsertPlace(keyOf, w, place, t, node);
      InsertValid(t, key);
      var change;
      find, change := InsertSlot(0, node, p, t, None);
      tree, place := InsertNode(t, key).0, p;
      forall a | a in keyOf
        ensures NodeFree(a)
      {
        assert old(NodeFree(a));
        if !(keyOf[a] in p && p[keyOf[a]] == a) {
          FreeNodeKept(keyOf, old(w), w, old(place), t, node, a);
        }
      }
    }

    /** `avl_delete`: returns the node that was in the tree under the key, or NULL. */
    method AvlDelete(key: int) returns (find: nat)
      requires Valid()
      modifies this
      ensures Valid() && tree == DeleteNode(old(tree), key).0
      ensures find == (if key in old(place) then old(place)[key] else 0) && place == old(place) - {key}
    {
      ghost var t := tree;
      DeleteValid(t, key);
      var change;
      find, change := DeleteSlot(0, key, place, t, None);
      tree := DeleteNode(t, key).0;
      StoredWithout(keyOf, w, place, tree, key);
      place := place - {key};
      forall a | a in keyOf
        ensures NodeFree(a)
      {
        assert old(NodeFree(a));
        if !(keyOf[a] in old(place) && old(place)[keyOf[a]] == a) {
          PoolOffFootprint(keyOf, w.link.Keys, old(place), t, a);
          assert W.GoodAddress(a);
          assert W.SameAt(old(w), w, a) && W.SameAt(old(w), w, a + W.WORD);
        }
      }
    }

    /**
     Any sequence of insertions and deletions, from the empty tree: memory then holds an AVL tree, and its
     nodes are exactly those inserted and not deleted since.
     */
    method Execute(requests: seq<Request>)
      requires Valid() && tree == Nil && forall i | 0 <= i < |requests| && requests[i].Put? :: requests[i].node in keyOf
      modifies this
      ensures Valid() && tree == PerformAll(CallsOf(keyOf, requests))
      ensures forall k :: k in place <==> k in KeySet(CallsOf(keyOf, requests))
    {
      ghost var calls := CallsOf(keyOf, requests);
      var i := 0;
      while i < |requests|
        invariant 0 <= i <= |requests| && Valid() && tree == PerformAll(calls[..i])
      {
        assert calls[..i + 1][..i] == calls[..i];
        match requests[i] {
          case Put(node) => var _ := AvlInsert(node);
          case Drop(key) => var _ := AvlDelete(key);
        }
        i := i + 1;
      }
      assert calls[..i] == calls;
      TreeIsKeySet(calls);
      forall k
        ensures k in place <==> k in KeySet(calls)
      {
        W.KeysInOrder(tree, k);
      }
    }

    /** `avl_search`: the node with the key, or NULL, in at most as many steps as the tree is high. */
    method AvlSearch(key: int) returns (walk: nat, ghost steps: nat)
      requires Valid()
      ensures walk == if key in place then place[key] else 0
      ensures steps <= Height(tree)
    {
      ghost var t := tree;
      steps := 0;
      walk := ReadLink(0);
      while walk != 0
        invariant W.Sound(w, place, t) && Sorted(InOrder(t)) && walk == W.Addr(place, t)
        invariant key in place <==> key in W.Keys(t)
        invariant steps + Height(t) <= Height(tree)
        decreases t
      {
        ChildAddresses(w, place, t);
        steps := steps + 1;
        if key == keyOf[walk] {
          return;
        }
        SearchStep(w, place, t, key);
        walk := ReadLink(if key < keyOf[walk] then walk else walk + W.WORD);
        t := Side(t, Toward(t, key));
      }
      assert t.Node? ==> W.GoodAddress(place[t.key]);
    }
  }

  datatype Request = Put(node: nat) | Drop(key: int)

  /** The calls on the tree of keys. */
  function CallsOf(keyOf: map<nat, int>, requests: seq<Request>): (calls: seq<Call>)
    requires forall i | 0 <= i < |requests| && requests[i].Put? :: requests[i].node in keyOf
    ensures |calls| == |requests|
  {
    seq(|requests|, i requires 0 <= i < |requests| =>
      match requests[i]
      case Put(node) => Insert(keyOf[node])
      case Drop(key) => Delete(key))
  }

  // ---------------------------------------------------------------------------------------
  // Nodes in memory
  // ---------------------------------------------------------------------------------------

  predicate NodesApart(a: nat, b: nat) {
    a != b && a + W.WORD != b && b + W.WORD != a
  }

  predicate NodeIn(a: nat, fields: set<nat>) {
    a in fields && a + W.WORD in fields
  }

  /** The nodes of a pool do not overlap, and all their fields exist. */
  predicate PoolOk(keyOf: map<nat, int>, fields: set<nat>) {
    && (forall a {:trigger W.GoodAddress(a)} | a in keyOf :: W.GoodAddress(a))
    && (forall a {:trigger NodeIn(a, fields)} | a in keyOf :: NodeIn(a, fields))
    && (forall a, b {:trigger NodesApart(a, b)} | a in keyOf && b in keyOf && a != b :: NodesApart(a, b))
  }

  /**
   The block can be moved by `delta`: its links lead to nodes of the block, addresses stay aligned, and no
   node falls on NULL or across the end of memory.
   */
  predicate CanMove(keyOf: map<nat, int>, fields: map<nat, nat>, w: W.Wiring, delta: nat) {
    && CanShift(w.link.Keys, delta) && CanShift(keyOf.Keys, delta) && w.link.Keys == w.tag.Keys
    && NodesFit(keyOf.Keys, delta) && (forall f | f in fields :: IsWord(f)) && 0 in w.link
    && forall f {:trigger LeadsToNode(keyOf, w, f)} | f in w.link :: LeadsToNode(keyOf, w, f)
  }

  predicate LeadsToNode(keyOf: map<nat, int>, w: W.Wiring, f: nat)
    requires f in w.link
  {
    w.link[f] == 0 || w.link[f] in keyOf
  }

  lemma HoldsMoves(rootNode: nat, fields: map<nat, nat>, w: W.Wiring, delta: nat, f: nat)
    requires CanShift(w.link.Keys, delta) && w.link.Keys == w.tag.Keys && (forall f | f in fields :: IsWord(f))
    requires f in w.link && FieldHolds(rootNode, fields, w, f) && (w.link[f] != 0 ==> Shift(w.link[f], delta) != 0)
    ensures var v, g := MoveWiring(w, delta), Shift(f, delta);
            g in v.link && g in v.tag && FieldHolds(MoveRoot(rootNode, delta), MoveBlock(fields, delta), v, g)
  {
    WiringAt(w, delta, f);
    if f == 0 {
      RootMoves(rootNode, delta);
    } else {
      FieldMoves(fields[f], f, delta);
      MovedContents(fields, delta, f);
    }
  }

  lemma KeyMoves(keyOf: map<nat, int>, delta: nat, a: nat)
    requires CanShift(keyOf.Keys, delta) && a in keyOf
    ensures Shift(a, delta) in MoveKeyOf(keyOf, delta) && MoveKeyOf(keyOf, delta)[Shift(a, delta)] == keyOf[a]
  {
  }

  lemma LabelsMove(keyOf: map<nat, int>, place: map<int, nat>, delta: nat)
    requires Labelled(keyOf, place) && CanShift(keyOf.Keys, delta)
    ensures Labelled(MoveKeyOf(keyOf, delta), MovePlace(place, delta))
  {
    forall k | k in place
      ensures Shift(place[k], delta) in MoveKeyOf(keyOf, delta) && MoveKeyOf(keyOf, delta)[Shift(place[k], delta)] == k
    {
      KeyMoves(keyOf, delta, place[k]);
    }
  }

  lemma PlacesMove(keyOf: map<nat, int>, place: map<int, nat>, delta: nat)
    requires Labelled(keyOf, place) && NodesFit(keyOf.Keys, delta)
    ensures PlacesFit(place, delta)
  {
    forall k | k in place
      ensures W.GoodAddress(place[k]) && W.GoodAddress(Shift(place[k], delta))
    {
      assert place[k] in keyOf.Keys;
    }
  }

  lemma PoolMoves(keyOf: map<nat, int>, w: W.Wiring, delta: nat)
    requires PoolOk(keyOf, w.link.Keys) && CanShift(w.link.Keys, delta) && CanShift(keyOf.Keys, delta)
    requires w.link.Keys == w.tag.Keys && NodesFit(keyOf.Keys, delta)
    ensures PoolOk(MoveKeyOf(keyOf, delta), MoveWiring(w, delta).link.Keys)
  {
    var moved, keys := MoveKeyOf(keyOf, delta), MoveWiring(w, delta).link.Keys;
    forall b | b in moved
      ensures W.GoodAddress(b) && NodeIn(b, keys)
    {
      var a :| a in keyOf && b == Shift(a, delta);
      assert W.GoodAddress(a) && NodeIn(a, w.link.Keys);
      ShiftNext(a, delta);
      WiringAt(w, delta, a);
      WiringAt(w, delta, a + W.WORD);
    }
    forall b, c | b in moved && c in moved && b != c
      ensures NodesApart(b, c)
    {
      var a :| a in keyOf && b == Shift(a, delta);
      var d :| d in keyOf && c == Shift(d, delta);
      NodesStayApart(a, d, delta);
    }
  }

  lemma NodesStayApart(a: nat, b: nat, delta: nat)
    requires W.GoodAddress(a) && W.GoodAddress(b) && IsWord(delta) && NodesApart(a, b)
    requires W.GoodAddress(Shift(a, delta)) && W.GoodAddress(Shift(b, delta))
    ensures NodesApart(Shift(a, delta), Shift(b, delta))
  {
  }

  /** Nodes carry the keys they are placed under. */
  predicate Labelled(keyOf: map<nat, int>, place: map<int, nat>) {
    forall k | k in place :: place[k] in keyOf && keyOf[place[k]] == k
  }

  lemma PoolPlace(keyOf: map<nat, int>, fields: set<nat>, place: map<int, nat>)
    requires PoolOk(keyOf, fields) && Labelled(keyOf, place)
    ensures W.GoodPlace(place)
  {
    forall k | k in place
      ensures W.GoodAddress(place[k])
    {
    }
    forall j, k | j in place && k in place && j != k
      ensures W.ClearOf(place, j, k)
    {
      assert NodesApart(place[j], place[k]);
    }
  }

  /** What is stored depends on the places of its keys only. */
  lemma {:induction false} StoredPlace(w: W.Wiring, place: map<int, nat>, p: map<int, nat>, t: Tree)
    requires W.Stored(w, place, t) && forall k | k in W.Keys(t) && k in place :: k in p && p[k] == place[k]
    ensures W.Stored(w, p, t) && W.Addr(p, t) == W.Addr(place, t) && W.Footprint(p, t) == W.Footprint(place, t)
  {
    if t.Node? {
      StoredPlace(w, place, p, t.left);
      StoredPlace(w, place, p, t.right);
    }
  }

  /** A node that is not in the tree has no field in common with it. */
  lemma PoolOffFootprint(keyOf: map<nat, int>, fields: set<nat>, place: map<int, nat>, t: Tree, a: nat)
    requires PoolOk(keyOf, fields) && Labelled(keyOf, place) && a in keyOf
    requires !(keyOf[a] in place && place[keyOf[a]] == a)
    ensures a !in W.Footprint(place, t) && a + W.WORD !in W.Footprint(place, t)
  {
    forall k | k in place
      ensures a !in W.Fields(place, k) && a + W.WORD !in W.Fields(place, k)
    {
      assert place[k] != a;
      assert NodesApart(place[k], a);
    }
    OffAll(place, t, a);
    OffAll(place, t, a + W.WORD);
  }

  lemma {:induction false} OffAll(place: map<int, nat>, t: Tree, f: nat)
    requires forall k | k in place :: f !in W.Fields(place, k)
    ensures f !in W.Footprint(place, t)
  {
    if t.Node? {
      OffAll(place, t.left, f);
      OffAll(place, t.right, f);
    }
  }

  /** The places once the node has its own. */
  function PlaceWith(place: map<int, nat>, key: int, node: nat): map<int, nat> {
    if key in place then place else place[key := node]
  }

  lemma InsertPlace(keyOf: map<nat, int>, w: W.Wiring, place: map<int, nat>, t: Tree, node: nat)
    requires W.Sound(w, place, t) && place.Keys == W.Keys(t) && Labelled(keyOf, place) && PoolOk(keyOf, w.link.Keys)
    requires node in keyOf
    ensures
      var p := PlaceWith(place, keyOf[node], node);
      && Labelled(keyOf, p) && W.Sound(w, p, t) && W.Addr(p, t) == W.Addr(place, t)
      && W.Footprint(p, t) == W.Footprint(place, t)
      && (keyOf[node] !in place && Unlinked(w, node) && w.tag[node] == 0 ==> W.Stored(w, p, Leaf(keyOf[node])))
  {
    var p := PlaceWith(place, keyOf[node], node);
    PoolPlace(keyOf, w.link.Keys, p);
    StoredPlace(w, place, p, t);
    if keyOf[node] !in place && Unlinked(w, node) && w.tag[node] == 0 {
      LeafStored(w, p, keyOf[node]);
    }
  }

  lemma LeafStored(w: W.Wiring, place: map<int, nat>, key: int)
    requires key in place && Unlinked(w, place[key]) && w.tag[place[key]] == 0
    ensures W.Stored(w, place, Leaf(key))
  {
  }

  lemma InsertValid(t: Tree, key: int)
    requires Avl(t) && Sorted(InOrder(t))
    ensures
      var (u, _, added) := InsertNode(t, key);
      Avl(u) && Sorted(InOrder(u)) && W.Apart(u) && W.Keys(u) == W.Keys(t) + {key} && (added <==> key !in W.Keys(t))
  {
    InsertKeys(t, key);
    KeysPlus(InsertNode(t, key).0, t, key);
    W.KeysInOrder(t, key);
  }

  lemma KeysPlus(u: Tree, t: Tree, key: int)
    requires Sorted(InOrder(u)) && forall x :: x in InOrder(u) <==> x in InOrder(t) || x == key
    ensures W.Apart(u) && W.Keys(u) == W.Keys(t) + {key}
  {
    W.SortedApart(u);
    forall k
      ensures k in W.Keys(u) <==> k in W.Keys(t) || k == key
    {
      W.KeysInOrder(u, k);
      W.KeysInOrder(t, k);
    }
  }

  lemma KeysMinus(u: Tree, t: Tree, key: int)
    requires Sorted(InOrder(u)) && forall x :: x in InOrder(u) <==> x in InOrder(t) && x != key
    ensures W.Apart(u) && W.Keys(u) == W.Keys(t) - {key}
  {
    W.SortedApart(u);
    forall k
      ensures k in W.Keys(u) <==> k in W.Keys(t) && k != key
    {
      W.KeysInOrder(u, k);
      W.KeysInOrder(t, k);
    }
  }

  /** Nodes that are neither in the tree nor being inserted stay as they are. */
  lemma FreeNodeKept(keyOf: map<nat, int>, w: W.Wiring, v: W.Wiring, place: map<int, nat>, t: Tree, node: nat, a: nat)
    requires PoolOk(keyOf, w.link.Keys) && node in keyOf && a in keyOf && Unlinked(w, a)
    requires
      var p := PlaceWith(place, keyOf[node], node);
      && Labelled(keyOf, p) && !(keyOf[a] in p && p[keyOf[a]] == a)
      && W.OnlyChanges(w, v, W.Footprint(p, t) + W.Fields(p, keyOf[node]) + {0})
    ensures Unlinked(v, a) && v.tag[a] == w.tag[a]
  {
    var p, key := PlaceWith(place, keyOf[node], node), keyOf[node];
    PoolOffFootprint(keyOf, w.link.Keys, p, t, a);
    PoolOffFootprint(keyOf, w.link.Keys, p, Leaf(key), a);
    assert W.Fields(p, key) <= W.Footprint(p, Leaf(key));
    assert W.GoodAddress(a);
    assert W.SameAt(w, v, a) && W.SameAt(w, v, a + W.WORD);
  }

  lemma DeleteValid(t: Tree, key: int)
    requires Avl(t) && Sorted(InOrder(t))
    ensures
      var (u, _, found) := DeleteNode(t, key);
      Avl(u) && Sorted(InOrder(u)) && W.Apart(u) && W.Keys(u) == W.Keys(t) - {key} && (found <==> key in W.Keys(t))
  {
    DeleteKeys(t, key);
    KeysMinus(DeleteNode(t, key).0, t, key);
    W.KeysInOrder(t, key);
  }

  /** A tree without a key is stored without the place of that key. */
  lemma StoredWithout(keyOf: map<nat, int>, w: W.Wiring, place: map<int, nat>, u: Tree, key: int)
    requires W.Stored(w, place, u) && key !in W.Keys(u) && Labelled(keyOf, place) && PoolOk(keyOf, w.link.Keys)
    ensures W.Stored(w, place - {key}, u) && W.Addr(place - {key}, u) == W.Addr(place, u)
    ensures Labelled(keyOf, place - {key}) && W.GoodPlace(place - {key})
  {
    StoredPlace(w, place, place - {key}, u);
    PoolPlace(keyOf, w.link.Keys, place - {key});
  }

  lemma SearchStep(w: W.Wiring, place: map<int, nat>, t: Tree, key: int)
    requires W.Sound(w, place, t) && t.Node? && Sorted(InOrder(t)) && key != t.key
    ensures
      var s := Side(t, Toward(t, key));
      && W.Sound(w, place, s) && Sorted(InOrder(s)) && (key in W.Keys(t) <==> key in W.Keys(s))
      && Height(s) < Height(t)
  {
    W.SoundSide(w, place, t, Toward(t, key));
    TurnedAway(t, key);
  }

  predicate GoodField(f: nat) {
    0 < f && IsWord(f) && Aligned(f)
  }

  function Zeros(fields: set<nat>): map<nat, nat> {
    map f | f in fields :: 0
  }

  /** All fields zero. */
  function NoLinks(fields: set<nat>): (w: W.Wiring)
    ensures w.link.Keys == w.tag.Keys == fields
  {
    W.Wiring(map f | f in fields :: 0, map f | f in fields :: 0)
  }

  lemma FreshNode(keyOf: map<nat, int>, addresses: set<nat>, a: nat)
    requires PoolOk(keyOf, addresses + {0}) && a in keyOf
    ensures Unlinked(NoLinks(addresses + {0}), a) && NoLinks(addresses + {0}).tag[a] == 0
  {
    assert NodeIn(a, addresses + {0});
  }

  lemma EmptyTree(keyOf: map<nat, int>, addresses: set<nat>)
    requires PoolOk(keyOf, addresses + {0})
    ensures
      var w := NoLinks(addresses + {0});
      && PoolOk(keyOf, w.link.Keys) && Labelled(keyOf, map[]) && W.Sound(w, map[], Nil)
      && 0 in w.link && w.link[0] == W.Addr(map[], Nil)
  {
  }

  lemma ZeroField(addresses: set<nat>, f: nat)
    requires f in addresses + {0} && (f in addresses ==> GoodField(f))
    ensures FieldHolds(0, Zeros(addresses), NoLinks(addresses + {0}), f)
  {
  }

  lemma NothingMore(place: map<int, nat>, t: Tree, direction: int)
    requires t.Node?
    ensures W.Footprint(place, t) + {} == W.Footprint(place, t)
    ensures W.Footprint(place, Side(t, direction)) + {} == W.Footprint(place, Side(t, direction))
  {
  }

  /** A key that is found is in the tree, and so not the slot owner's. */
  lemma FoundKey(t: Tree, key: int, owner: Option<int>, place: map<int, nat>, slot: nat)
    requires t.Node? && Avl(t) && Sorted(InOrder(t)) && key != t.key && SlotOf(place, t, slot, owner)
    ensures DeleteNode(Side(t, Toward(t, key)), key).2 ==> key in W.Keys(t) && owner != Some(key)
  {
    SortedSides(t);
    DeleteKeys(Side(t, Toward(t, key)), key);
    W.KeysInOrder(Side(t, Toward(t, key)), key);
  }

  /** What a deletion from the tree `t` below a slot leaves behind. */
  predicate DeletedFrom(w: W.Wiring, v: W.Wiring, place: map<int, nat>, slot: nat, t: Tree, key: int,
                        find: nat, change: int)
    requires Avl(t)
  {
    && SlotIs(w, v, place, slot, DeleteNode(t, key).0, W.Footprint(place, t)) && change == DeleteNode(t, key).1
    && if DeleteNode(t, key).2 then
         key in place && find == place[key] && find != 0 && Unlinked(v, find) && v.tag[find] == 0
       else find == 0 && v == w
  }

  lemma LeftReady(w: W.Wiring, place: map<int, nat>, t: Tree)
    requires W.Sound(w, place, t) && t.Node? && Avl(t) && Sorted(InOrder(t))
    ensures t.key in place && W.NodeAt(w, place, t)
    ensures W.Sound(w, place, t.left) && Avl(t.left) && Sorted(InOrder(t.left))
    ensures SlotOf(place, t.left, place[t.key], Some(t.key))
  {
    W.SoundSide(w, place, t, -1);
    SortedSides(t);
  }

  /** The links of a node tell which children it has. */
  lemma ChildAddresses(w: W.Wiring, place: map<int, nat>, t: Tree)
    requires W.Sound(w, place, t) && t.Node?
    ensures t.key in place && W.NodeAt(w, place, t) && place[t.key] != 0
    ensures (W.Addr(place, t.left) == 0 <==> t.left.Nil?) && (W.Addr(place, t.right) == 0 <==> t.right.Nil?)
  {
    W.SoundSide(w, place, t, -1);
    W.SoundSide(w, place, t, 1);
    assert W.GoodAddress(place[t.key]);
    assert t.left.Node? ==> W.GoodAddress(place[t.left.key]);
    assert t.right.Node? ==> W.GoodAddress(place[t.right.key]);
  }

  /** The tree whose root is about to be replaced by the greatest node of its left subtree. */
  lemma LeafKeys(t: Tree)
    requires t.Node? && t.left.Node? && t.right.Node? && Avl(t) && Sorted(InOrder(t))
    ensures
      var (k, sub, c) := TakeRightMost(t.left);
      var x := WithSide(t, -1, sub);
      && W.Apart(x) && k in W.Keys(t) && k !in W.Keys(x) && (forall j | j in W.Keys(x) :: j in W.Keys(t))
      && CanRebalance(x.(key := k), -1, c)
      && DeleteNode(t, t.key) == (Rebalance(x.(key := k), -1, c).0, Rebalance(x.(key := k), -1, c).1, true)
  {
    var (k, sub, c) := TakeRightMost(t.left);
    var x := WithSide(t, -1, sub);
    TakeRightMostKeys(t.left);
    LeafSorted(t, sub, k);
    LeafStep(t);
  }

  lemma LeafStep(t: Tree)
    requires t.Node? && t.left.Node? && t.right.Node? && Avl(t)
    ensures
      var (k, sub, c) := TakeRightMost(t.left);
      var x := WithSide(t, -1, sub);
      var y := x.(key := k);
      CanRebalance(y, -1, c) && DeleteNode(t, t.key) == (Rebalance(y, -1, c).0, Rebalance(y, -1, c).1, true)
  {
    var (k, sub, c) := TakeRightMost(t.left);
    var x := WithSide(t, -1, sub);
    var y := x.(key := k);
    assert y == WithSide(t.(key := k), -1, sub);
    SideChanged(t.(key := k), -1, sub, c);
    RebalanceRestores(y, -1, c);
  }

  lemma LeafSorted(t: Tree, sub: Tree, k: int)
    requires t.Node? && Sorted(InOrder(t)) && InOrder(t.left) == InOrder(sub) + [k]
    ensures
      var x := WithSide(t, -1, sub);
      W.Apart(x) && k in W.Keys(t) && k !in W.Keys(x) && forall j | j in W.Keys(x) :: j in W.Keys(t)
  {
    var x := WithSide(t, -1, sub);
    SortedJoin(InOrder(t.left), t.key, InOrder(t.right));
    LastKeyTaken(sub, t.left, k);
    assert forall i | i in InOrder(sub) :: i in InOrder(t.left);
    SortedJoin(InOrder(sub), t.key, InOrder(t.right));
    W.SortedApart(x);
    NotOnTheRight(t, k);
  }

  lemma NotOnTheRight(t: Tree, k: int)
    requires t.Node? && Sorted(InOrder(t)) && k in W.Keys(t.left)
    ensures k != t.key && k !in W.Keys(t.right)
  {
    W.SortedApart(t);
  }

  /** After the greatest node has left the left subtree. */
  lemma LeafTaken(w: W.Wiring, v: W.Wiring, place: map<int, nat>, t: Tree, k: int, sub: Tree,
                  slot: nat, owner: Option<int>)
    requires W.Sound(w, place, t) && t.Node? && t.key in place && SlotOf(place, t, slot, owner) && slot in w.link
    requires SlotIs(w, v, place, place[t.key], sub, W.Footprint(place, t.left)) && k in W.Keys(t)
    requires W.Apart(WithSide(t, -1, sub)) && forall j | j in W.Keys(WithSide(t, -1, sub)) :: j in W.Keys(t)
    ensures W.Sound(v, place, WithSide(t, -1, sub)) && SlotOf(place, WithSide(t, -1, sub), slot, owner)
    ensures owner != Some(k) && W.SameAt(w, v, slot) && W.OnlyChanges(w, v, W.Footprint(place, t))
  {
    NothingMore(place, t, -1);
    ChildDone(w, v, place, t, -1, sub, t.key, {}, slot, owner);
  }

  /** The three steps of a deletion in the middle of the tree stay within its fields. */
  lemma ChangesCompose(w0: W.Wiring, w1: W.Wiring, w2: W.Wiring, w3: W.Wiring,
                       place: map<int, nat>, t: Tree, x: Tree, k: int, slot: nat)
    requires t.Node? && x.Node? && x.key == t.key && k in W.Keys(t) && (forall j | j in W.Keys(x) :: j in W.Keys(t))
    requires W.OnlyChanges(w0, w1, W.Footprint(place, t))
    requires W.OnlyChanges(w1, w2, W.Fields(place, t.key) + W.Fields(place, k) + {slot})
    requires W.OnlyChanges(w2, w3, W.Footprint(place, x.(key := k)) + {slot})
    ensures W.OnlyChanges(w0, w3, W.Footprint(place, t) + {slot})
  {
    var f := W.Footprint(place, t);
    W.FootprintContains(place, t, t.key);
    W.FootprintContains(place, t, k);
    W.FootprintOfKeys(place, x.(key := k), t, {}, t.key);
    W.OnlyChangesMore(w0, w1, f, f + {slot});
    W.OnlyChangesMore(w1, w2, W.Fields(place, t.key) + W.Fields(place, k) + {slot}, f + {slot});
    W.OnlyChangesMore(w2, w3, W.Footprint(place, x.(key := k)) + {slot}, f + {slot});
    W.OnlyChangesChain(w0, w1, w2, f + {slot}, f + {slot});
    W.OnlyChangesChain(w0, w2, w3, f + {slot} + (f + {slot}), f + {slot});
    assert f + {slot} + (f + {slot}) + (f + {slot}) == f + {slot};
  }

  lemma DeletedKey(t: Tree, key: int)
    requires Avl(t) && Sorted(InOrder(t))
    ensures key !in W.Keys(DeleteNode(t, key).0)
  {
    DeleteKeys(t, key);
    W.KeysInOrder(DeleteNode(t, key).0, key);
  }

  /** Clearing the balance of a deleted node. */
  lemma TagCleared(w: W.Wiring, v: W.Wiring, place: map<int, nat>, slot: nat, t: Tree, u: Tree, owner: Option<int>)
    requires W.GoodPlace(place) && t.Node? && t.key in place && SlotOf(place, t, slot, owner) && t.key !in W.Keys(u)
    requires SlotIs(w, v, place, slot, u, W.Footprint(place, t)) && Unlinked(v, place[t.key])
    ensures
      var z := W.SetTag(v, place[t.key], 0);
      SlotIs(w, z, place, slot, u, W.Footprint(place, t)) && Unlinked(z, place[t.key]) && z.tag[place[t.key]] == 0
  {
    var a := place[t.key];
    var z := W.SetTag(v, a, 0);
    SlotClearOf(place, slot, owner, t.key);
    W.OffFootprint(place, u, t.key);
    assert W.OnlyChanges(v, z, {a});
    W.StoredElsewhere(v, z, place, u, {a});
    W.OnlyChangesChain(w, v, z, W.Footprint(place, t) + {slot}, {a});
    assert a in W.Fields(place, t.key);
    assert W.Footprint(place, t) + {slot} + {a} == W.Footprint(place, t) + {slot};
  }

  /** The tree after the deletion from a subtree, before rebalancing. */
  function Deleted(t: Tree, key: int): (x: Tree)
    requires t.Node? && Avl(t)
    ensures x.Node? && x.key == t.key
  {
    WithSide(t, Toward(t, key), DeleteNode(Side(t, Toward(t, key)), key).0)
  }

  lemma DeleteStep(t: Tree, key: int)
    requires t.Node? && Avl(t) && key != t.key
    ensures
      var (sub, c, found) := DeleteNode(Side(t, Toward(t, key)), key);
      && CanRebalance(Deleted(t, key), Toward(t, key), c)
      && DeleteNode(t, key) ==
         if found then
           (Rebalance(Deleted(t, key), Toward(t, key), c).0, Rebalance(Deleted(t, key), Toward(t, key), c).1, true)
         else (t, 0, false)
  {
    var (sub, c, found) := DeleteNode(Side(t, Toward(t, key)), key);
    SideChanged(t, Toward(t, key), sub, c);
    RebalanceRestores(Deleted(t, key), Toward(t, key), c);
  }

  lemma DeletedKeys(t: Tree, key: int)
    requires t.Node? && Avl(t) && Sorted(InOrder(t)) && key != t.key
    ensures W.Apart(Deleted(t, key)) && key !in W.Keys(Deleted(t, key))
    ensures forall k | k in W.Keys(Deleted(t, key)) :: k in W.Keys(t)
  {
    var x := Deleted(t, key);
    SortedJoin(InOrder(t.left), t.key, InOrder(t.right));
    DeleteKeys(Side(t, Toward(t, key)), key);
    SortedJoin(InOrder(x.left), t.key, InOrder(x.right));
    W.SortedApart(x);
    W.KeysInOrder(x, key);
    assert forall k | k in InOrder(x) :: k in InOrder(t);
    KeysWithin(x, t);
  }

  lemma KeysWithin(x: Tree, t: Tree)
    requires forall k | k in InOrder(x) :: k in InOrder(t)
    ensures forall k | k in W.Keys(x) :: k in W.Keys(t)
  {
    forall k | k in W.Keys(x)
      ensures k in W.Keys(t)
    {
      W.KeysInOrder(x, k);
      W.KeysInOrder(t, k);
    }
  }

  lemma DeleteChildReady(w: W.Wiring, place: map<int, nat>, t: Tree, key: int)
    requires W.Sound(w, place, t) && t.Node? && Avl(t) && Sorted(InOrder(t)) && key != t.key
    ensures t.key in place
    ensures
      var d := Toward(t, key);
      var f := W.ChildField(place, t, d);
      && f in w.link && w.link[f] == W.Addr(place, Side(t, d)) && SlotOf(place, Side(t, d), f, Some(t.key))
      && W.Sound(w, place, Side(t, d)) && Avl(Side(t, d)) && Sorted(InOrder(Side(t, d)))
  {
    W.SoundSide(w, place, t, Toward(t, key));
    SortedSides(t);
  }

  /** The fields after `ReplaceByLeaf`. */
  function ReplaceWiring(w: W.Wiring, place: map<int, nat>, t: Tree, k: int, slot: nat): W.Wiring
    requires t.Node? && t.key in place && k in place
  {
    var a, b := place[t.key], place[k];
    var v := W.SetTag(W.SetLink(W.SetLink(w, b, W.Addr(place, t.left)), b + W.WORD, W.Addr(place, t.right)), b,
                      W.Code(t.balance));
    W.SetLink(W.SetLink(W.SetLink(v, a, 0), a + W.WORD, 0), slot, b)
  }

  lemma ReplaceReady(w: W.Wiring, place: map<int, nat>, t: Tree, k: int, slot: nat, owner: Option<int>)
    requires W.Sound(w, place, t) && t.Node? && k in place && k !in W.Keys(t)
    requires SlotOf(place, t, slot, owner) && owner != Some(k)
    ensures t.key in place && W.NodeAt(w, place, t) && W.ClearOf(place, t.key, k) && place[t.key] != 0 && place[k] != 0
    ensures MayLink(place[k], W.Addr(place, t.left)) && MayLink(place[k] + W.WORD, W.Addr(place, t.right))
    ensures MayLink(slot, place[k]) && slot !in W.Fields(place, t.key) && slot !in W.Fields(place, k)
  {
    W.SoundSide(w, place, t, -1);
    W.SoundSide(w, place, t, 1);
    W.OffParts(t, 1, k);
    NodeMayLink(w, place, k, t.left);
    NodeMayLink(w, place, k, t.right);
    SlotMayLink(place, slot, owner, k);
    SlotClearOf(place, slot, owner, k);
    SlotClearOf(place, slot, owner, t.key);
    assert W.ClearOf(place, t.key, k) && W.GoodAddress(place[t.key]) && W.GoodAddress(place[k]);
  }

  /** From `w` to `v` the node of `k` has replaced the root node of `t`, which has no children any more. */
  predicate IsReplaced(w: W.Wiring, v: W.Wiring, place: map<int, nat>, t: Tree, k: int, slot: nat)
    requires t.Node? && t.key in place && k in place
  {
    && W.NodeAt(v, place, t.(key := k)) && Unlinked(v, place[t.key])
    && slot in v.link && v.link[slot] == place[k] && slot in v.tag && slot in w.tag && v.tag[slot] == w.tag[slot]
    && W.OnlyChanges(w, v, W.Fields(place, t.key) + W.Fields(place, k) + {slot})
  }

  /** The replacing node is in the tree with both subtrees. */
  lemma Replaced(w: W.Wiring, v: W.Wiring, place: map<int, nat>, t: Tree, k: int, slot: nat, owner: Option<int>)
    requires W.Sound(w, place, t) && t.Node? && t.key in place && k in place && k !in W.Keys(t)
    requires SlotOf(place, t, slot, owner) && owner != Some(k) && IsReplaced(w, v, place, t, k, slot)
    ensures W.Sound(v, place, t.(key := k)) && SlotOf(place, t.(key := k), slot, owner)
    ensures t.key !in W.Keys(t.(key := k))
  {
    ReplacedKeys(place, t, k, slot, owner);
    ReplacedStored(w, v, place, t, k, slot, owner);
  }

  lemma ReplacedStored(w: W.Wiring, v: W.Wiring, place: map<int, nat>, t: Tree, k: int, slot: nat, owner: Option<int>)
    requires W.Sound(w, place, t) && t.Node? && t.key in place && k in place && k !in W.Keys(t)
    requires SlotOf(place, t, slot, owner) && owner != Some(k) && W.NodeAt(v, place, t.(key := k))
    requires W.OnlyChanges(w, v, W.Fields(place, t.key) + W.Fields(place, k) + {slot})
    ensures W.Stored(v, place, t.(key := k))
  {
    var fields := W.Fields(place, t.key) + W.Fields(place, k) + {slot};
    W.SoundSide(w, place, t, -1);
    W.SoundSide(w, place, t, 1);
    OffFields(place, t.left, t, k, slot, owner);
    OffFields(place, t.right, t, k, slot, owner);
    W.StoredElsewhere(w, v, place, t.left, fields);
    W.StoredElsewhere(w, v, place, t.right, fields);
  }

  lemma ReplacedKeys(place: map<int, nat>, t: Tree, k: int, slot: nat, owner: Option<int>)
    requires t.Node? && W.Apart(t) && k !in W.Keys(t) && SlotOf(place, t, slot, owner) && owner != Some(k)
    ensures W.Apart(t.(key := k)) && SlotOf(place, t.(key := k), slot, owner) && t.key !in W.Keys(t.(key := k))
  {
    W.OffParts(t, 1, k);
    if owner.Some? {
      W.OffParts(t, 1, owner.value);
    }
  }

  lemma ReplaceValues(w: W.Wiring, place: map<int, nat>, t: Tree, k: int, slot: nat)
    requires t.Node? && t.key in place && k in place && W.ClearOf(place, t.key, k) && w.link.Keys == w.tag.Keys
    requires slot !in W.Fields(place, t.key) && slot !in W.Fields(place, k)
    requires W.Fields(place, t.key) + W.Fields(place, k) + {slot} <= w.link.Keys
    ensures IsReplaced(w, ReplaceWiring(w, place, t, k, slot), place, t, k, slot)
  {
    var v := ReplaceWiring(w, place, t, k, slot);
    assert v.link.Keys == w.link.Keys && v.tag.Keys == w.tag.Keys;
    forall f | f in w.link && f !in W.Fields(place, t.key) + W.Fields(place, k) + {slot}
      ensures W.SameAt(w, v, f)
    {
    }
  }

  lemma OffFields(place: map<int, nat>, s: Tree, t: Tree, k: int, slot: nat, owner: Option<int>)
    requires W.GoodPlace(place) && t.Node? && t.key in place && k in place && k !in W.Keys(t) && t.key !in W.Keys(s)
    requires (s == t.left || s == t.right) && SlotOf(place, t, slot, owner)
    ensures (W.Fields(place, t.key) + W.Fields(place, k) + {slot}) !! W.Footprint(place, s)
  {
    W.OffParts(t, 1, k);
    W.OffFootprint(place, s, t.key);
    W.OffFootprint(place, s, k);
    SlotOfSide(place, t, slot, owner, 1);
    SlotOfSide(place, t, slot, owner, -1);
    SlotOff(place, s, slot, owner);
  }

  /** What taking the greatest node out of the tree `t` below a slot leaves behind. */
  predicate TakenFrom(w: W.Wiring, v: W.Wiring, place: map<int, nat>, slot: nat, t: Tree, find: nat, change: int)
    requires t.Node? && Avl(t)
  {
    var (found, u, c) := TakeRightMost(t);
    && found in place && find == place[found] && find != 0 && change == c
    && SlotIs(w, v, place, slot, u, W.Footprint(place, t)) && Unlinked(v, find)
  }

  /** The node at `a` has no children. */
  predicate Unlinked(w: W.Wiring, a: nat) {
    && a in w.link && a + W.WORD in w.link && a in w.tag && a + W.WORD in w.tag
    && w.link[a] == 0 && w.link[a + W.WORD] == 0
  }

  lemma RightReady(w: W.Wiring, place: map<int, nat>, t: Tree)
    requires W.Sound(w, place, t) && t.Node? && Avl(t) && Sorted(InOrder(t))
    ensures t.key in place && W.NodeAt(w, place, t)
    ensures W.Sound(w, place, t.right) && Avl(t.right) && Sorted(InOrder(t.right))
    ensures SlotOf(place, t.right, place[t.key] + W.WORD, Some(t.key))
  {
    W.SoundSide(w, place, t, 1);
    SortedSides(t);
  }

  lemma SortedSides(t: Tree)
    requires t.Node? && Sorted(InOrder(t))
    ensures Sorted(InOrder(t.left)) && Sorted(InOrder(t.right))
  {
    SortedJoin(InOrder(t.left), t.key, InOrder(t.right));
  }

  /** A slot above a node may lead to the left subtree of that node. */
  lemma NodeMayLinkSlot(w: W.Wiring, place: map<int, nat>, slot: nat, owner: Option<int>, t: Tree)
    requires W.Sound(w, place, t) && t.Node? && SlotOf(place, t, slot, owner)
    ensures MayLink(slot, W.Addr(place, t.left)) && MayLink(slot, W.Addr(place, t.right))
  {
    W.SoundSide(w, place, t, -1);
    W.SoundSide(w, place, t, 1);
    if t.left.Node? {
      SlotMayLink(place, slot, owner, t.left.key);
    }
    if t.right.Node? {
      SlotMayLink(place, slot, owner, t.right.key);
    }
  }

  /** The slot takes over one subtree of a node without the other one, and the node's links are cleared. */
  lemma NodeBypassed(w: W.Wiring, place: map<int, nat>, slot: nat, owner: Option<int>, t: Tree, direction: int)
    requires W.Sound(w, place, t) && t.Node? && SlotOf(place, t, slot, owner) && slot in w.link
    requires direction != 0 && Side(t, -direction).Nil?
    ensures t.key in place
    ensures
      var f := W.ChildField(place, t, direction);
      var v := W.SetLink(W.SetLink(w, slot, W.Addr(place, Side(t, direction))), f, 0);
      SlotIs(w, v, place, slot, Side(t, direction), W.Footprint(place, t)) && Unlinked(v, place[t.key])
  {
    var a, f, sub := place[t.key], W.ChildField(place, t, direction), Side(t, direction);
    var u := W.SetLink(w, slot, W.Addr(place, sub));
    var v := W.SetLink(u, f, 0);
    W.SoundSide(w, place, t, direction);
    SlotOff(place, t, slot, owner);
    W.OffFootprint(place, sub, t.key);
    SlotOfSide(place, t, slot, owner, direction);
    SlotOff(place, sub, slot, owner);
    TwoLinks(w, slot, W.Addr(place, sub), f, place, sub);
    W.OnlyChangesMore(w, v, {slot, f}, W.Footprint(place, t) + {slot});
  }

  /** Two links outside a stored tree are written. */
  lemma TwoLinks(w: W.Wiring, f: nat, target: nat, g: nat, place: map<int, nat>, t: Tree)
    requires w.link.Keys == w.tag.Keys && f in w.link && g in w.link && W.Stored(w, place, t)
    requires f !in W.Footprint(place, t) && g !in W.Footprint(place, t)
    ensures var v := W.SetLink(W.SetLink(w, f, target), g, 0); W.OnlyChanges(w, v, {f, g}) && W.Stored(v, place, t)
  {
    W.StoredElsewhere(w, W.SetLink(W.SetLink(w, f, target), g, 0), place, t, {f, g});
  }

  lemma SlotOfSide(place: map<int, nat>, t: Tree, slot: nat, owner: Option<int>, direction: int)
    requires t.Node? && SlotOf(place, t, slot, owner) && direction != 0
    ensures SlotOf(place, Side(t, direction), slot, owner)
  {
    if owner.Some? {
      W.OffParts(t, direction, owner.value);
    }
  }

  /** The tree after the greatest node has left the right subtree, before rebalancing. */
  lemma TakenKeys(t: Tree)
    requires t.Node? && t.right.Node? && Avl(t) && Sorted(InOrder(t))
    ensures
      var (found, sub, c) := TakeRightMost(t.right);
      var x := WithSide(t, 1, sub);
      && Sorted(InOrder(x)) && W.Apart(x) && (forall k | k in W.Keys(x) :: k in W.Keys(t))
      && found in W.Keys(t) && found !in W.Keys(x)
      && CanRebalance(x, 1, c) && TakeRightMost(t) == (found, Rebalance(x, 1, c).0, Rebalance(x, 1, c).1)
  {
    var (found, sub, c) := TakeRightMost(t.right);
    var x := WithSide(t, 1, sub);
    TakeRightMostKeys(t.right);
    assert InOrder(t) == InOrder(x) + [found];
    LastKeyTaken(x, t, found);
    SideChanged(t, 1, sub, c);
    RebalanceRestores(x, 1, c);
  }

  /** The tree `x` that is left to be settled once the key `found` has been taken from the right subtree. */
  lemma TakeReady(w0: W.Wiring, v: W.Wiring, place: map<int, nat>, slot: nat, t: Tree, owner: Option<int>,
                  find: nat, heightChange: int)
    returns (found: int, x: Tree)
    requires W.Sound(w0, place, t) && t.Node? && t.right.Node? && Avl(t) && Sorted(InOrder(t))
    requires SlotOf(place, t, slot, owner) && slot in w0.link && w0.link[slot] == W.Addr(place, t) && t.key in place
    requires TakenFrom(w0, v, place, place[t.key] + W.WORD, t.right, find, heightChange)
    ensures W.Sound(v, place, x) && x.Node? && CanRebalance(x, 1, heightChange)
    ensures SlotOf(place, x, slot, owner) && W.SameAt(w0, v, slot) && v.link[slot] == W.Addr(place, x)
    ensures W.OnlyChanges(w0, v, W.Footprint(place, t)) && W.Footprint(place, x) <= W.Footprint(place, t)
    ensures found in place && find == place[found] && find != 0 && found !in W.Keys(x) && owner != Some(found)
    ensures Unlinked(v, find)
    ensures TakeRightMost(t) == (found, Rebalance(x, 1, heightChange).0, Rebalance(x, 1, heightChange).1)
  {
    TakenKeys(t);
    var (key, sub, _) := TakeRightMost(t.right);
    found, x := key, WithSide(t, 1, sub);
    RightDone(w0, v, place, slot, t, owner, sub);
  }

  lemma RightDone(w0: W.Wiring, v: W.Wiring, place: map<int, nat>, slot: nat, t: Tree, owner: Option<int>, sub: Tree)
    requires W.Sound(w0, place, t) && t.Node? && t.key in place && W.Apart(WithSide(t, 1, sub))
    requires SlotOf(place, t, slot, owner) && slot in w0.link
    requires SlotIs(w0, v, place, place[t.key] + W.WORD, sub, W.Footprint(place, t.right))
    requires forall k | k in W.Keys(WithSide(t, 1, sub)) :: k in W.Keys(t)
    ensures
      var x := WithSide(t, 1, sub);
      && W.Sound(v, place, x) && SlotOf(place, x, slot, owner)
      && W.SameAt(w0, v, slot) && W.OnlyChanges(w0, v, W.Footprint(place, t))
      && W.Footprint(place, x) <= W.Footprint(place, t)
  {
    NothingMore(place, t, 1);
    ChildDone(w0, v, place, t, 1, sub, t.key, {}, slot, owner);
  }

  lemma LastKeyTaken(x: Tree, t: Tree, found: int)
    requires Sorted(InOrder(t)) && InOrder(t) == InOrder(x) + [found]
    ensures Sorted(InOrder(x)) && W.Apart(x) && found in W.Keys(t) && found !in W.Keys(x)
    ensures forall k | k in W.Keys(x) :: k in W.Keys(t)
  {
    assert InOrder(x) + [found] + [] == InOrder(t);
    SortedJoin(InOrder(x), found, []);
    W.SortedApart(x);
    W.KeysInOrder(t, found);
    W.KeysInOrder(x, found);
    forall k | k in W.Keys(x)
      ensures k in W.Keys(t)
    {
      W.KeysInOrder(x, k);
      W.KeysInOrder(t, k);
    }
  }

  /** A node that has been cleared stays so while the tree without it is rebalanced. */
  lemma StaysCleared(w: W.Wiring, v: W.Wiring, place: map<int, nat>, x: Tree, slot: nat, owner: Option<int>, k: int)
    requires W.GoodPlace(place) && k in place && k !in W.Keys(x) && SlotOf(place, x, slot, owner) && owner != Some(k)
    requires W.OnlyChanges(w, v, W.Footprint(place, x) + {slot}) && Unlinked(w, place[k])
    ensures Unlinked(v, place[k]) && v.tag[place[k]] == w.tag[place[k]]
  {
    W.OffFootprint(place, x, k);
    SlotClearOf(place, slot, owner, k);
    assert W.SameAt(w, v, place[k]) && W.SameAt(w, v, place[k] + W.WORD);
  }

  /** Only an insertion that added the node changes the height. */
  lemma InsertedOrFound(t: Tree, key: int)
    requires t.Node? && Avl(t) && Sorted(InOrder(t)) && key != t.key
    ensures InsertNode(Side(t, Toward(t, key)), key).1 != 0 ==> key !in W.Keys(t)
    ensures InsertNode(Side(t, Toward(t, key)), key).1 == 0 ==>
              InsertNode(t, key).0 == Inserted(t, key) && InsertNode(t, key).1 == 0
  {
    SortedJoin(InOrder(t.left), t.key, InOrder(t.right));
    InsertKeys(Side(t, Toward(t, key)), key);
    TurnedAway(t, key);
    W.KeysInOrder(Side(t, Toward(t, key)), key);
    InsertStep(t, key);
  }

  function Leaf(key: int): Tree {
    Node(Nil, key, Balanced, Nil)
  }

  function Toward(t: Tree, key: int): int
    requires t.Node?
  {
    if key < t.key then -1 else 1
  }

  /** The tree after the insertion into a subtree, before rebalancing. */
  function Inserted(t: Tree, key: int): (x: Tree)
    requires t.Node? && Avl(t)
    ensures x.Node? && x.key == t.key
  {
    WithSide(t, Toward(t, key), InsertNode(Side(t, Toward(t, key)), key).0)
  }

  /** The subtree's change of height is one that `rebalance` can handle. */
  predicate InsertReady(t: Tree, key: int)
    requires t.Node? && Avl(t)
  {
    CanRebalance(Inserted(t, key), Toward(t, key), InsertNode(Side(t, Toward(t, key)), key).1)
  }

  /** How an insertion goes on above the subtree. */
  lemma InsertStep(t: Tree, key: int)
    requires t.Node? && Avl(t) && key != t.key
    ensures InsertReady(t, key)
    ensures
      var (sub, c, added) := InsertNode(Side(t, Toward(t, key)), key);
      var (u, c') := Rebalance(Inserted(t, key), Toward(t, key), c);
      InsertNode(t, key) == (u, c', added)
  {
    var (sub, c, added) := InsertNode(Side(t, Toward(t, key)), key);
    SideChanged(t, Toward(t, key), sub, c);
    RebalanceRestores(Inserted(t, key), Toward(t, key), c);
  }

  lemma InsertedKeys(t: Tree, key: int)
    requires t.Node? && Avl(t) && Sorted(InOrder(t)) && key != t.key
    ensures
      var x := Inserted(t, key);
      && Sorted(InOrder(x)) && W.Apart(x) && InsertReady(t, key)
      && (forall k | k in W.Keys(x) :: k in W.Keys(t) || k == key)
  {
    var side, x := Side(t, Toward(t, key)), Inserted(t, key);
    SortedJoin(InOrder(t.left), t.key, InOrder(t.right));
    InsertKeys(side, key);
    SortedJoin(InOrder(x.left), t.key, InOrder(x.right));
    W.SortedApart(x);
    InsertStep(t, key);
    forall k | k in W.Keys(x)
      ensures k in W.Keys(t) || k == key
    {
      W.KeysInOrder(x, k);
      W.KeysInOrder(t, k);
    }
  }

  /** The key is not on the side that the insertion turns away from. */
  lemma TurnedAway(t: Tree, key: int)
    requires t.Node? && Sorted(InOrder(t)) && key != t.key
    ensures key !in W.Keys(Side(t, -Toward(t, key))) && Sorted(InOrder(Side(t, Toward(t, key))))
  {
    SortedJoin(InOrder(t.left), t.key, InOrder(t.right));
    W.KeysInOrder(Side(t, -Toward(t, key)), key);
  }

  lemma InsertChildReady(w: W.Wiring, place: map<int, nat>, t: Tree, key: int)
    requires W.Sound(w, place, t) && t.Node? && Avl(t) && Sorted(InOrder(t)) && key in place && key != t.key
    ensures t.key in place
    ensures
      var d := Toward(t, key);
      var f := W.ChildField(place, t, d);
      && f in w.link && w.link[f] == W.Addr(place, Side(t, d)) && SlotOf(place, Side(t, d), f, Some(t.key))
      && W.Sound(w, place, Side(t, d)) && Avl(Side(t, d)) && Sorted(InOrder(Side(t, d)))
      && (key !in W.Keys(Side(t, d)) ==> key !in W.Keys(t))
  {
    W.SoundSide(w, place, t, Toward(t, key));
    TurnedAway(t, key);
  }

  /** The node of a key does not overlap the root node or the side that the key is not on. */
  lemma KeyFieldsClear(place: map<int, nat>, t: Tree, direction: int, key: int)
    requires W.GoodPlace(place) && t.Node? && t.key in place && key in place && key != t.key
    requires key !in W.Keys(Side(t, -direction))
    ensures W.Fields(place, key) !! W.Fields(place, t.key)
    ensures W.Fields(place, key) !! W.Footprint(place, Side(t, -direction))
  {
    assert W.ClearOf(place, t.key, key);
    W.OffFootprint(place, Side(t, -direction), key);
  }

  /** After a change in a subtree: the node is there with its new subtree, and nothing above it has changed. */
  lemma ChildDone(w: W.Wiring, v: W.Wiring, place: map<int, nat>, t: Tree, d: int, sub: Tree, key: int, extra: set<nat>,
                  slot: nat, owner: Option<int>)
    requires W.Sound(w, place, t) && t.Node? && d != 0 && t.key in place
    requires SlotOf(place, t, slot, owner) && owner != Some(key) && slot in w.link && slot !in extra
    requires SlotIs(w, v, place, W.ChildField(place, t, d), sub, W.Footprint(place, Side(t, d)) + extra)
    requires extra !! W.Fields(place, t.key) && extra !! W.Footprint(place, Side(t, -d))
    requires W.Apart(WithSide(t, d, sub))
    requires forall k | k in W.Keys(WithSide(t, d, sub)) :: k in W.Keys(t) || k == key
    requires W.Fields(place, key) <= extra || key !in W.Keys(WithSide(t, d, sub)) || key in W.Keys(t)
    ensures
      var x := WithSide(t, d, sub);
      && W.Sound(v, place, x) && SlotOf(place, x, slot, owner)
      && W.SameAt(w, v, slot) && W.OnlyChanges(w, v, W.Footprint(place, t) + extra)
      && W.Footprint(place, x) <= W.Footprint(place, t) + extra
  {
    var x, f := WithSide(t, d, sub), W.ChildField(place, t, d);
    W.SoundSide(w, place, t, d);
    W.SideReplaced(w, v, place, t, d, sub, extra);
    W.FootprintOfKeys(place, x, t, extra, key);
    W.OnlyChangesMore(w, v, W.Footprint(place, Side(t, d)) + extra + {f}, W.Footprint(place, t) + extra);
    SlotOff(place, t, slot, owner);
  }

  lemma SlotClearOf(place: map<int, nat>, slot: nat, owner: Option<int>, key: int)
    requires W.GoodPlace(place) && SlotOf(place, Nil, slot, owner) && key in place && owner != Some(key)
    ensures slot !in W.Fields(place, key)
  {
    assert W.GoodAddress(place[key]);
    if owner.Some? {
      assert W.ClearOf(place, owner.value, key);
    }
  }

  /** A slot that is no part of a tree is no part of the rotated one. */
  lemma RotatedSlot(place: map<int, nat>, t: Tree, side: int, change: int, slot: nat, owner: Option<int>)
    requires t.Node? && side != 0 && Side(t, side).Node? && SlotOf(place, t, slot, owner)
    ensures Rotate(t, -side, change).0.Node? && SlotOf(place, Rotate(t, -side, change).0, slot, owner)
    ensures owner != Some(Rotate(t, -side, change).0.key)
    ensures Side(Side(t, side), -side).Node? ==>
              var u := DoubleRotate(t, -side, change).0;
              u.Node? && SlotOf(place, u, slot, owner) && owner != Some(u.key)
  {
    var inner := Side(Side(t, side), -side);
    W.RotateShape(t, -side, change);
    if owner.Some? {
      W.OffRotate(t, -side, Balanced, Balanced, owner.value);
      W.OffRotate(t, -side, LeftHeavy, RightHeavy, owner.value);
      W.OffRotate(t, -side, RightHeavy, LeftHeavy, owner.value);
    }
    if inner.Node? {
      var (hb, wb) := W.DoubleBalances(inner.balance, -side);
      W.DoubleRotateShape(t, -side, change);
      if owner.Some? {
        W.OffDoubleRotate(t, -side, hb, wb, owner.value);
      }
    }
  }
}
