/**
 The AVL tree of util/avl/avlsup.c on values: insertion and deletion with the balance tags of
 include_core/omravldefines.h and the height change that the recursion hands upwards. The comparator
 orders nodes by an integer key. `AvlInPlace` has the same operations on nodes in memory.
 */
module AvlTree {
  import opened MachineInts

  datatype Balance = Balanced | LeftHeavy | RightHeavy

  datatype Tree = Nil | Node(left: Tree, key: int, balance: Balance, right: Tree)

  // ---------------------------------------------------------------------------------------
  // The operations
  // ---------------------------------------------------------------------------------------

  /** `rotate`: a single rotation away from the heavy side; `direction < 0` means the right side is heavy. */
  function Rotate(t: Tree, direction: int, change: int): (Tree, int)
    requires t.Node? && (if direction < 0 then t.right.Node? else t.left.Node?)
  {
    if direction < 0 then
      var heavy := t.right;
      var walk := t.(right := heavy.left);
      if heavy.balance != Balanced then
        (heavy.(left := walk.(balance := Balanced), balance := Balanced), if change > 0 then 0 else change)
      else
        (heavy.(left := walk.(balance := RightHeavy), balance := LeftHeavy), 0)
    else
      var heavy := t.left;
      var walk := t.(left := heavy.right);
      if heavy.balance != Balanced then
        (heavy.(right := walk.(balance := Balanced), balance := Balanced), if change > 0 then 0 else change)
      else
        (heavy.(right := walk.(balance := LeftHeavy), balance := RightHeavy), 0)
  }

  /** `doubleRotate` */
  function DoubleRotate(t: Tree, direction: int, change: int): (Tree, int)
    requires t.Node?
    requires if direction < 0 then t.right.Node? && t.right.left.Node? else t.left.Node? && t.left.right.Node?
  {
    var change' := if change > 0 then 0 else change;
    if direction < 0 then
      var heavy, top := t.right, t.right.left;
      var (h, w) := match top.balance {
        case Balanced => (Balanced, Balanced)
        case LeftHeavy => (RightHeavy, Balanced)
        case RightHeavy => (Balanced, LeftHeavy)
      };
      (Node(t.(right := top.left, balance := w), top.key, Balanced, heavy.(left := top.right, balance := h)), change')
    else
      var heavy, top := t.left, t.left.right;
      var (h, w) := match top.balance {
        case Balanced => (Balanced, Balanced)
        case LeftHeavy => (Balanced, RightHeavy)
        case RightHeavy => (LeftHeavy, Balanced)
      };
      (Node(heavy.(right := top.left, balance := h), top.key, Balanced, t.(left := top.right, balance := w)), change')
  }

  /** The side that `rebalance` finds heavy once a subtree on side `direction` has changed its height. */
  function HeavySide(direction: int, change: int): int {
    if change < 0 then -direction else direction
  }

  /** What `rebalance` relies on when it rotates: the heavy subtree, and for a double rotation its inner one, exist. */
  predicate CanRebalance(t: Tree, direction: int, change: int) {
    change == 0 ||
    (t.Node? && direction != 0 &&
     var side := HeavySide(direction, change);
     (t.balance != Balanced && (t.balance == LeftHeavy) == (side < 0) ==>
        if side < 0 then t.left.Node? && (t.left.balance == RightHeavy ==> t.left.right.Node?)
        else t.right.Node? && (t.right.balance == LeftHeavy ==> t.right.left.Node?)))
  }

  function Rebalance(t: Tree, direction: int, change: int): (Tree, int)
    requires CanRebalance(t, direction, change)
  {
    if change == 0 then (t, 0)
    else
      var side := HeavySide(direction, change);
      if t.balance == Balanced then
        (t.(balance := if side < 0 then LeftHeavy else RightHeavy), if change < 0 then 0 else change)
      else if (t.balance == LeftHeavy) == (side < 0) then
        if side < 0 && t.left.balance == RightHeavy then DoubleRotate(t, -side, change)
        else if side > 0 && t.right.balance == LeftHeavy then DoubleRotate(t, -side, change)
        else Rotate(t, -side, change)
      else (t.(balance := Balanced), if change > 0 then 0 else change)
  }

  // ---------------------------------------------------------------------------------------
  // What an AVL tree is
  // ---------------------------------------------------------------------------------------

  function Height(t: Tree): nat {
    if t.Nil? then 0
    else var l, r := Height(t.left), Height(t.right); 1 + (if l > r then l else r)
  }

  function BalanceOf(l: int, r: int): Balance
    requires -1 <= l - r <= 1
  {
    if l > r then LeftHeavy else if l < r then RightHeavy else Balanced
  }

  /** Heights of siblings differ by at most one, and every tag says how. */
  predicate Avl(t: Tree) {
    t.Node? ==>
      && Avl(t.left) && Avl(t.right)
      && -1 <= Height(t.left) - Height(t.right) <= 1
      && t.balance == BalanceOf(Height(t.left), Height(t.right))
  }

  function InOrder(t: Tree): seq<int> {
    if t.Nil? then [] else InOrder(t.left) + [t.key] + InOrder(t.right)
  }

  predicate Sorted(s: seq<int>) {
    forall i, j | 0 <= i < j < |s| :: s[i] < s[j]
  }

  // ---------------------------------------------------------------------------------------
  // Rebalancing
  // ---------------------------------------------------------------------------------------

  /**
   `t` is a node whose subtree on side `direction` has just changed its height by `change`, while its
   tag still describes the heights before. A subtree that has grown is not balanced, unless it is new.
   */
  predicate Changed(t: Tree, direction: int, change: int) {
    && t.Node? && Avl(t.left) && Avl(t.right) && -1 <= change <= 1 && direction != 0
    && var l := Height(t.left) - (if direction < 0 then change else 0);
       var r := Height(t.right) - (if direction > 0 then change else 0);
       && l >= 0 && r >= 0 && -1 <= l - r <= 1 && t.balance == BalanceOf(l, r)
       && (change == 1 && direction < 0 && l > 0 ==> t.left.balance != Balanced)
       && (change == 1 && direction > 0 && r > 0 ==> t.right.balance != Balanced)
  }

  /** The height of `t` before the change. */
  function HeightBefore(t: Tree, direction: int, change: int): int
    requires t.Node?
  {
    var l := Height(t.left) - (if direction < 0 then change else 0);
    var r := Height(t.right) - (if direction > 0 then change else 0);
    1 + (if l > r then l else r)
  }

  /** `rebalance` restores the AVL property, keeps the order of the keys and reports the height change upwards. */
  lemma RebalanceRestores(t: Tree, direction: int, change: int)
    requires Changed(t, direction, change)
    ensures CanRebalance(t, direction, change)
    ensures
      var (u, c) := Rebalance(t, direction, change);
      && Avl(u) && u.Node? && InOrder(u) == InOrder(t)
      && Height(u) == HeightBefore(t, direction, change) + c
      && (change >= 0 ==> 0 <= c <= 1) && (change <= 0 ==> -1 <= c <= 0)
      && (c == 1 ==> u.balance != Balanced)
  {
    if change != 0 {
      var side := HeavySide(direction, change);
      if t.balance != Balanced && (t.balance == LeftHeavy) == (side < 0) {
        if side < 0 {
          RotateRight(t, change);
        } else {
          RotateLeft(t, change);
        }
      }
    }
  }

  lemma RotateRight(t: Tree, change: int)
    requires t.Node? && Avl(t.left) && Avl(t.right) && Height(t.left) == Height(t.right) + 2
    requires change == 1 ==> t.left.balance != Balanced
    requires change == 1 || change == -1
    ensures t.left.Node? && (t.left.balance == RightHeavy ==> t.left.right.Node?)
    ensures
      var (u, c) := if t.left.balance == RightHeavy then DoubleRotate(t, 1, change) else Rotate(t, 1, change);
      && Avl(u) && u.Node? && InOrder(u) == InOrder(t)
      && (change == 1 ==> c == 0 && Height(u) == Height(t) - 1)
      && (change == -1 ==> -1 <= c <= 0 && Height(u) == Height(t) + c)
  {
    if t.left.balance == RightHeavy {
      DoubleRotateRight(t, change);
    } else {
      SingleRotateRight(t, change);
    }
  }

  lemma SingleRotateRight(t: Tree, change: int)
    requires t.Node? && Avl(t.left) && Avl(t.right) && Height(t.left) == Height(t.right) + 2
    requires t.left.balance != RightHeavy && (change == 1 ==> t.left.balance != Balanced)
    requires change == 1 || change == -1
    ensures
      var (u, c) := Rotate(t, 1, change);
      && Avl(u) && u.Node? && InOrder(u) == InOrder(t)
      && (change == 1 ==> c == 0 && Height(u) == Height(t) - 1)
      && (change == -1 ==> -1 <= c <= 0 && Height(u) == Height(t) + c)
  {
    var u := Rotate(t, 1, change).0;
    assert InOrder(u) == InOrder(t) by {
      Regroup(InOrder(t.left.left), t.left.key, InOrder(t.left.right), t.key, InOrder(t.right));
    }
  }

  lemma DoubleRotateRight(t: Tree, change: int)
    requires t.Node? && Avl(t.left) && Avl(t.right) && Height(t.left) == Height(t.right) + 2
    requires t.left.balance == RightHeavy
    requires change == 1 || change == -1
    ensures t.left.right.Node?
    ensures
      var (u, c) := DoubleRotate(t, 1, change);
      && Avl(u) && u.Node? && InOrder(u) == InOrder(t)
      && (change == 1 ==> c == 0 && Height(u) == Height(t) - 1)
      && (change == -1 ==> c == -1 && Height(u) == Height(t) - 1)
  {
    var heavy, top := t.left, t.left.right;
    var u := DoubleRotate(t, 1, change).0;
    assert Avl(u.left) && Avl(u.right) && Height(u.left) == Height(u.right) == Height(t) - 2;
    assert InOrder(u) == InOrder(t) by {
      assert InOrder(heavy) == InOrder(heavy.left) + [heavy.key] + InOrder(top);
      assert InOrder(u.left) == InOrder(heavy.left) + [heavy.key] + InOrder(top.left);
      assert InOrder(u.right) == InOrder(top.right) + [t.key] + InOrder(t.right);
      RegroupDouble(InOrder(heavy.left), heavy.key, InOrder(top.left), top.key, InOrder(top.right), t.key,
                    InOrder(t.right));
    }
  }

  lemma RotateLeft(t: Tree, change: int)
    requires t.Node? && Avl(t.left) && Avl(t.right) && Height(t.right) == Height(t.left) + 2
    requires change == 1 ==> t.right.balance != Balanced
    requires change == 1 || change == -1
    ensures t.right.Node? && (t.right.balance == LeftHeavy ==> t.right.left.Node?)
    ensures
      var (u, c) := if t.right.balance == LeftHeavy then DoubleRotate(t, -1, change) else Rotate(t, -1, change);
      && Avl(u) && u.Node? && InOrder(u) == InOrder(t)
      && (change == 1 ==> c == 0 && Height(u) == Height(t) - 1)
      && (change == -1 ==> -1 <= c <= 0 && Height(u) == Height(t) + c)
  {
    if t.right.balance == LeftHeavy {
      DoubleRotateLeft(t, change);
    } else {
      SingleRotateLeft(t, change);
    }
  }

  lemma SingleRotateLeft(t: Tree, change: int)
    requires t.Node? && Avl(t.left) && Avl(t.right) && Height(t.right) == Height(t.left) + 2
    requires t.right.balance != LeftHeavy && (change == 1 ==> t.right.balance != Balanced)
    requires change == 1 || change == -1
    ensures
      var (u, c) := Rotate(t, -1, change);
      && Avl(u) && u.Node? && InOrder(u) == InOrder(t)
      && (change == 1 ==> c == 0 && Height(u) == Height(t) - 1)
      && (change == -1 ==> -1 <= c <= 0 && Height(u) == Height(t) + c)
  {
    var u := Rotate(t, -1, change).0;
    assert InOrder(u) == InOrder(t) by {
      Regroup(InOrder(t.left), t.key, InOrder(t.right.left), t.right.key, InOrder(t.right.right));
    }
  }

  lemma DoubleRotateLeft(t: Tree, change: int)
    requires t.Node? && Avl(t.left) && Avl(t.right) && Height(t.right) == Height(t.left) + 2
    requires t.right.balance == LeftHeavy
    requires change == 1 || change == -1
    ensures t.right.left.Node?
    ensures
      var (u, c) := DoubleRotate(t, -1, change);
      && Avl(u) && u.Node? && InOrder(u) == InOrder(t)
      && (change == 1 ==> c == 0 && Height(u) == Height(t) - 1)
      && (change == -1 ==> c == -1 && Height(u) == Height(t) - 1)
  {
    var heavy, top := t.right, t.right.left;
    var u := DoubleRotate(t, -1, change).0;
    assert Avl(u.left) && Avl(u.right) && Height(u.left) == Height(u.right) == Height(t) - 2;
    assert InOrder(u) == InOrder(t) by {
      assert InOrder(heavy) == InOrder(top) + [heavy.key] + InOrder(heavy.right);
      assert InOrder(u.left) == InOrder(t.left) + [t.key] + InOrder(top.left);
      assert InOrder(u.right) == InOrder(top.right) + [heavy.key] + InOrder(heavy.right);
      RegroupDouble(InOrder(t.left), t.key, InOrder(top.left), top.key, InOrder(top.right), heavy.key,
                    InOrder(heavy.right));
    }
  }

  lemma Regroup(a: seq<int>, x: int, b: seq<int>, y: int, c: seq<int>)
    ensures (a + [x] + b) + [y] + c == a + [x] + (b + [y] + c)
  {
  }

  lemma RegroupDouble(a: seq<int>, x: int, b: seq<int>, m: int, c: seq<int>, y: int, d: seq<int>)
    ensures (a + [x] + (b + [m] + c)) + [y] + d == (a + [x] + b) + [m] + (c + [y] + d)
    ensures a + [x] + ((b + [m] + c) + [y] + d) == (a + [x] + b) + [m] + (c + [y] + d)
  {
  }

  // ---------------------------------------------------------------------------------------
  // Insertion
  // ---------------------------------------------------------------------------------------

  function Side(t: Tree, direction: int): Tree
    requires t.Node?
  {
    if direction < 0 then t.left else t.right
  }

  function WithSide(t: Tree, direction: int, sub: Tree): (u: Tree)
    requires t.Node?
    ensures u.Node? && u.key == t.key
  {
    if direction < 0 then t.(left := sub) else t.(right := sub)
  }

  /** A subtree of an AVL tree may be exchanged for one whose height differs by `change`. */
  lemma SideChanged(t: Tree, direction: int, sub: Tree, change: int)
    requires Avl(t) && t.Node? && direction != 0 && Avl(sub) && -1 <= change <= 1
    requires Height(sub) == Height(Side(t, direction)) + change
    requires change == 1 && Side(t, direction).Node? ==> sub.Node? && sub.balance != Balanced
    ensures Changed(WithSide(t, direction, sub), direction, change)
    ensures HeightBefore(WithSide(t, direction, sub), direction, change) == Height(t)
  {
  }

  /** Puts a changed subtree back in its place and rebalances. */
  function Reattach(t: Tree, direction: int, sub: Tree, change: int): (Tree, int)
    requires Avl(t) && t.Node? && direction != 0 && Avl(sub) && -1 <= change <= 1
    requires Height(sub) == Height(Side(t, direction)) + change
    requires change == 1 && Side(t, direction).Node? ==> sub.Node? && sub.balance != Balanced
    ensures
      var (u, c) := Reattach(t, direction, sub, change);
      && Avl(u) && u.Node? && Height(u) == Height(t) + c
      && (change >= 0 ==> 0 <= c <= 1) && (change <= 0 ==> -1 <= c <= 0) && (c == 1 ==> u.balance != Balanced)
      && InOrder(u) == InOrder(WithSide(t, direction, sub))
  {
    var w := WithSide(t, direction, sub);
    SideChanged(t, direction, sub, change);
    RebalanceRestores(w, direction, change);
    Rebalance(w, direction, change)
  }

  /** `insertNode`: the new tree, its height change, and whether the node was added. */
  function InsertNode(t: Tree, key: int): (Tree, int, bool)
    requires Avl(t)
    ensures
      var (u, change, added) := InsertNode(t, key);
      && Avl(u) && u.Node? && 0 <= change <= 1 && Height(u) == Height(t) + change
      && (change == 1 && t.Node? ==> u.balance != Balanced)
      && (!added ==> u == t && change == 0)
  {
    if t.Nil? then (Node(Nil, key, Balanced, Nil), 1, true)
    else if key == t.key then (t, 0, false)
    else
      var direction := if key < t.key then -1 else 1;
      var (sub, change, added) := InsertNode(Side(t, direction), key);
      if added && change != 0 then
        var (u, c) := Reattach(t, direction, sub, change);
        (u, c, added)
      else (WithSide(t, direction, sub), change, added)
  }

  /** A sorted list split at a member. */
  lemma SortedJoin(a: seq<int>, k: int, b: seq<int>)
    ensures Sorted(a + [k] + b)
       <==> Sorted(a) && Sorted(b) && (forall x | x in a :: x < k) && (forall x | x in b :: k < x)
  {
    var s := a + [k] + b;
    assert s[|a|] == k;
    assert forall i | 0 <= i < |a| :: s[i] == a[i] && a[i] in a;
    assert forall i | 0 <= i < |b| :: s[|a| + 1 + i] == b[i] && b[i] in b;
    assert forall i | |a| < i < |s| :: s[i] == b[i - |a| - 1];
  }

  /** The keys after an insertion: sorted, with `key` added if it was not there. */
  lemma {:induction false} InsertKeys(t: Tree, key: int)
    requires Avl(t) && Sorted(InOrder(t))
    ensures
      var (u, _, added) := InsertNode(t, key);
      && Sorted(InOrder(u))
      && (forall x :: x in InOrder(u) <==> x in InOrder(t) || x == key)
      && (added <==> key !in InOrder(t))
  {
    if t.Node? && key != t.key {
      SortedJoin(InOrder(t.left), t.key, InOrder(t.right));
      var direction := if key < t.key then -1 else 1;
      InsertKeys(Side(t, direction), key);
      var w := WithSide(t, direction, InsertNode(Side(t, direction), key).0);
      SortedJoin(InOrder(w.left), t.key, InOrder(w.right));
    }
  }

  // ---------------------------------------------------------------------------------------
  // Deletion
  // ---------------------------------------------------------------------------------------

  /** `findRightMostLeaf`: takes the greatest node out of a tree. */
  function TakeRightMost(t: Tree): (int, Tree, int)
    requires Avl(t) && t.Node?
    ensures var (_, u, change) := TakeRightMost(t);
            Avl(u) && -1 <= change <= 0 && Height(u) == Height(t) + change
  {
    if t.right.Nil? then (t.key, t.left, -1)
    else
      var (found, sub, change) := TakeRightMost(t.right);
      var (u, c) := Reattach(t, 1, sub, change);
      (found, u, c)
  }

  lemma {:induction false} TakeRightMostKeys(t: Tree)
    requires Avl(t) && t.Node?
    ensures var (found, u, _) := TakeRightMost(t); InOrder(t) == InOrder(u) + [found]
  {
    if t.right.Node? {
      var (found, sub, change) := TakeRightMost(t.right);
      TakeRightMostKeys(t.right);
      var w := WithSide(t, 1, sub);
      assert InOrder(t) == InOrder(t.left) + [t.key] + (InOrder(sub) + [found]) == InOrder(w) + [found];
    }
  }

  /** `deleteNode`: the new tree, its height change, and whether the node was found. */
  function DeleteNode(t: Tree, key: int): (Tree, int, bool)
    requires Avl(t)
    ensures var (u, change, found) := DeleteNode(t, key);
            && Avl(u) && -1 <= change <= 0 && Height(u) == Height(t) + change
            && (!found ==> u == t && change == 0)
  {
    if t.Nil? then (t, 0, false)
    else if key == t.key then
      if t.left.Nil? then (t.right, -1, true)
      else if t.right.Nil? then (t.left, -1, true)
      else
        var (leaf, sub, change) := TakeRightMost(t.left);
        var (u, c) := Reattach(t.(key := leaf), -1, sub, change);
        (u, c, true)
    else
      var direction := if key < t.key then -1 else 1;
      var (sub, change, found) := DeleteNode(Side(t, direction), key);
      if found then
        var (u, c) := Reattach(t, direction, sub, change);
        (u, c, found)
      else (WithSide(t, direction, sub), change, found)
  }

  /** The keys after a deletion: sorted, without `key`. */
  lemma {:induction false} DeleteKeys(t: Tree, key: int)
    requires Avl(t) && Sorted(InOrder(t))
    ensures
      var (u, _, found) := DeleteNode(t, key);
      && Sorted(InOrder(u))
      && (forall x :: x in InOrder(u) <==> x in InOrder(t) && x != key)
      && (found <==> key in InOrder(t))
  {
    if t.Node? {
      SortedJoin(InOrder(t.left), t.key, InOrder(t.right));
      if key == t.key {
        if t.left.Node? && t.right.Node? {
          DeleteRootKeys(t);
        }
      } else {
        var direction := if key < t.key then -1 else 1;
        DeleteKeys(Side(t, direction), key);
        var w := WithSide(t, direction, DeleteNode(Side(t, direction), key).0);
        SortedJoin(InOrder(w.left), t.key, InOrder(w.right));
      }
    }
  }

  /** Deleting the root of a tree with two subtrees puts the greatest key of the left one in its place. */
  lemma DeleteRootKeys(t: Tree)
    requires Avl(t) && Sorted(InOrder(t)) && t.Node? && t.left.Node? && t.right.Node?
    ensures
      var u := DeleteNode(t, t.key).0;
      Sorted(InOrder(u)) && forall x :: x in InOrder(u) <==> x in InOrder(t) && x != t.key
  {
    var (leaf, sub, change) := TakeRightMost(t.left);
    TakeRightMostKeys(t.left);
    assert InOrder(WithSide(t.(key := leaf), -1, sub)) == InOrder(sub) + [leaf] + InOrder(t.right);
    SortedJoin(InOrder(t.left), t.key, InOrder(t.right));
    SortedJoin(InOrder(sub), leaf, []);
    assert InOrder(sub) + [leaf] + [] == InOrder(t.left);
    assert leaf in InOrder(t.left);
    SortedJoin(InOrder(sub), leaf, InOrder(t.right));
  }

  // ---------------------------------------------------------------------------------------
  // Height
  // ---------------------------------------------------------------------------------------

  /** An AVL tree of height `h` has at least 2^(h/2) - 1 nodes, so a search takes logarithmically many steps. */
  lemma {:induction false} HeightIsLogarithmic(t: Tree)
    requires Avl(t)
    ensures Pow2(Height(t) / 2) <= |InOrder(t)| + 1
    decreases t
  {
    if t.Node? {
      HeightIsLogarithmic(t.left);
      HeightIsLogarithmic(t.right);
      var h := Height(t);
      if h >= 2 {
        Pow2Monotone((h - 2) / 2, Height(t.left) / 2);
        Pow2Monotone((h - 2) / 2, Height(t.right) / 2);
        assert h / 2 == (h - 2) / 2 + 1;
      }
    }
  }

  lemma {:induction false} Pow2Monotone(a: nat, b: nat)
    requires a <= b
    ensures Pow2(a) <= Pow2(b)
    decreases b - a
  {
    if a < b {
      Pow2Monotone(a + 1, b);
    }
  }

  // ---------------------------------------------------------------------------------------
  // Runs
  // ---------------------------------------------------------------------------------------

  datatype Call = Insert(key: int) | Delete(key: int)

  function Perform(t: Tree, c: Call): (u: Tree)
    requires Avl(t)
    ensures Avl(u)
  {
    match c
    case Insert(key) => InsertNode(t, key).0
    case Delete(key) => DeleteNode(t, key).0
  }

  function PerformAll(calls: seq<Call>): (t: Tree)
    ensures Avl(t)
    decreases |calls|
  {
    if calls == [] then Nil else Perform(PerformAll(calls[..|calls| - 1]), calls[|calls| - 1])
  }

  /** The set of keys that the calls leave behind. */
  function KeySet(calls: seq<Call>): set<int>
    decreases |calls|
  {
    if calls == [] then {}
    else
      var s := KeySet(calls[..|calls| - 1]);
      match calls[|calls| - 1]
      case Insert(key) => s + {key}
      case Delete(key) => s - {key}
  }

  /**
   Whatever sequence of insertions and deletions built it, the tree is an AVL tree, its in-order
   keys are strictly increasing, and they are exactly the keys inserted and not deleted since.
   */
  lemma {:induction false} TreeIsKeySet(calls: seq<Call>)
    ensures Avl(PerformAll(calls)) && Sorted(InOrder(PerformAll(calls)))
    ensures forall x :: x in InOrder(PerformAll(calls)) <==> x in KeySet(calls)
    decreases |calls|
  {
    if calls != [] {
      var n := |calls| - 1;
      TreeIsKeySet(calls[..n]);
      var t := PerformAll(calls[..n]);
      match calls[n]
      case Insert(key) => InsertKeys(t, key);
      case Delete(key) => DeleteKeys(t, key);
    }
  }
}
