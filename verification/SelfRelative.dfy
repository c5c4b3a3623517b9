/**
 Self-relative pointers (include_core/omrsrp.h) and the tagged ones of the AVL tree
 (include_core/omravldefines.h). A field stores the distance from its own address to its target;
 in the tree the two low bits of the field carry the balance of the node. Addresses are 64-bit words.
 */
module SelfRelative {
  import opened MachineInts

  /** An address or the content of a field: an unsigned 64-bit word. */
  predicate IsWord(x: int) {
    0 <= x < TWO64
  }

  predicate Aligned(x: int) {
    x % 4 == 0
  }

  /** `x & AVL_BALANCEMASK` and `x & ~AVL_BALANCEMASK`. */
  function Tag(x: nat): Bits {
    x % 4
  }

  function Untagged(x: nat): nat {
    x - x % 4
  }

  /** Two bits. */
  type Bits = n: nat | n < 4

  /** The bitwise or of two tags. */
  function OrBits(a: Bits, b: Bits): Bits {
    (if a >= 2 || b >= 2 then 2 else 0) + (if a % 2 == 1 || b % 2 == 1 then 1 else 0)
  }

  /** `tag | x` for a tag of two bits. */
  function OrTag(tag: Bits, x: nat): nat {
    if Aligned(x) then x + tag else Untagged(x) + OrBits(tag, Tag(x))
  }

  /** The distance between two addresses, as it is stored in a field. */
  function Distance(target: int, address: int): nat {
    (target - address) % TWO64
  }

  // ---------------------------------------------------------------------------------------
  // The macros on a field at a given address
  // ---------------------------------------------------------------------------------------

  /** AVL_GETNODE: the field without its tag. */
  function GetNode(field: nat): nat {
    Untagged(field)
  }

  /** AVL_GETBALANCE */
  function GetBalance(field: nat): Bits {
    Tag(field)
  }

  /** AVL_SETBALANCE */
  function SetBalance(field: nat, balance: Bits): nat {
    OrTag(balance, Untagged(field))
  }

  /** AVL_SRP_SETNODE */
  function SrpSetNode(field: nat, address: nat, target: nat): nat {
    OrTag(Tag(field), if target != 0 then Distance(target, address) else 0)
  }

  /** AVL_NNSRP_SETNODE */
  function NnSrpSetNode(field: nat, address: nat, target: nat): nat {
    OrTag(Tag(field), Distance(target, address))
  }

  /** AVL_SRP_SET_TO_NULL */
  function SrpSetToNull(field: nat): nat {
    Tag(field)
  }

  /** AVL_SRP_GETNODE */
  function SrpGetNode(field: nat, address: nat): nat {
    if GetNode(field) != 0 then (address + GetNode(field)) % TWO64 else 0
  }

  /** AVL_NNSRP_GETNODE */
  function NnSrpGetNode(field: nat, address: nat): nat {
    (address + GetNode(field)) % TWO64
  }

  // ---------------------------------------------------------------------------------------
  // Runs of assignments
  // ---------------------------------------------------------------------------------------

  datatype Assignment =
    | ToNode(target: nat)
    | ToNonNullNode(target: nat)
    | ToNull
    | ToBalance(balance: Bits)

  function Assign(field: nat, address: nat, a: Assignment): nat {
    match a
    case ToNode(target) => SrpSetNode(field, address, target)
    case ToNonNullNode(target) => NnSrpSetNode(field, address, target)
    case ToNull => SrpSetToNull(field)
    case ToBalance(balance) => SetBalance(field, balance)
  }

  function AssignAll(field: nat, address: nat, run: seq<Assignment>): nat
    decreases |run|
  {
    if run == [] then field
    else Assign(AssignAll(field, address, run[..|run| - 1]), address, run[|run| - 1])
  }

  /** Targets are aligned and not the field itself. */
  predicate Proper(address: nat, a: Assignment) {
    match a
    case ToNode(target) => IsWord(target) && Aligned(target) && target != address
    case ToNonNullNode(target) => IsWord(target) && Aligned(target) && target != address
    case ToNull => true
    case ToBalance(_) => true
  }

  /** The node and the balance last assigned, the given ones if there was no such assignment. */
  function LastNode(node: nat, run: seq<Assignment>): nat
    decreases |run|
  {
    if run == [] then node
    else
      match run[|run| - 1]
      case ToNode(target) => target
      case ToNonNullNode(target) => target
      case ToNull => 0
      case ToBalance(_) => LastNode(node, run[..|run| - 1])
  }

  function LastBalance(balance: Bits, run: seq<Assignment>): Bits
    decreases |run|
  {
    if run == [] then balance
    else
      match run[|run| - 1]
      case ToBalance(b) => b
      case _ => LastBalance(balance, run[..|run| - 1])
  }

  lemma AssignKeepsOther(field: nat, address: nat, a: Assignment)
    requires IsWord(address) && Aligned(address) && Proper(address, a)
    ensures var f := Assign(field, address, a);
            match a
            case ToNode(target) => SrpGetNode(f, address) == target && GetBalance(f) == GetBalance(field)
            case ToNonNullNode(target) => SrpGetNode(f, address) == target && GetBalance(f) == GetBalance(field)
            case ToNull => SrpGetNode(f, address) == 0 && GetBalance(f) == GetBalance(field)
            case ToBalance(b) => SrpGetNode(f, address) == SrpGetNode(field, address) && GetBalance(f) == b
  {
    match a
    case ToNode(target) => TaggedDistance(field, address, target);
    case ToNonNullNode(target) => TaggedDistance(field, address, target);
    case ToNull =>
    case ToBalance(b) => OrTagParts(b, Untagged(field));
  }

  lemma OrTagParts(tag: Bits, x: nat)
    requires Aligned(x)
    ensures OrTag(tag, x) == x + tag && Untagged(x + tag) == x && Tag(x + tag) == tag
  {
  }

  lemma DistanceFacts(target: nat, address: nat)
    requires IsWord(address) && IsWord(target) && Aligned(address) && Aligned(target)
    ensures var d := Distance(target, address);
            Aligned(d) && (d == 0 <==> target == address) && (address + d) % TWO64 == target
  {
    var a, t := address / 4, target / 4;
    assert address == 4 * a && target == 4 * t;
    if target >= address {
      assert Distance(target, address) == 4 * (t - a);
    } else {
      assert Distance(target, address) == 4 * (t - a + 0x4000_0000_0000_0000);
    }
  }

  /** A tagged distance gives back both the tag and, from the same address, the target. */
  lemma TaggedDistance(field: nat, address: nat, target: nat)
    requires IsWord(address) && IsWord(target) && Aligned(address) && Aligned(target)
    ensures var d := Distance(target, address);
            && Aligned(d) && (d == 0 <==> target == address) && (address + d) % TWO64 == target
            && GetNode(NnSrpSetNode(field, address, target)) == d
            && GetBalance(NnSrpSetNode(field, address, target)) == GetBalance(field)
            && GetNode(SrpSetNode(field, address, target)) == (if target == 0 then 0 else d)
            && GetBalance(SrpSetNode(field, address, target)) == GetBalance(field)
  {
    DistanceFacts(target, address);
    OrTagParts(Tag(field), Distance(target, address));
    OrTagParts(Tag(field), 0);
  }

  /**
   Over any run of assignments to a field, reading the link gives the node last assigned and reading
   the tag gives the balance last assigned: neither kind of assignment disturbs the other.
   */
  lemma {:induction false} LastAssignmentWins(field: nat, address: nat, run: seq<Assignment>)
    requires IsWord(address) && Aligned(address) && forall i | 0 <= i < |run| :: Proper(address, run[i])
    ensures SrpGetNode(AssignAll(field, address, run), address) == LastNode(SrpGetNode(field, address), run)
    ensures GetBalance(AssignAll(field, address, run)) == LastBalance(GetBalance(field), run)
    decreases |run|
  {
    if run != [] {
      var n := |run| - 1;
      LastAssignmentWins(field, address, run[..n]);
      AssignKeepsOther(AssignAll(field, address, run[..n]), address, run[n]);
    }
  }

  /** The excluded target: a link from a field to its own address reads back as NULL, and only that one is lost. */
  lemma SelfLinkLost(field: nat, address: nat, target: nat)
    requires IsWord(address) && IsWord(target) && Aligned(address) && Aligned(target)
    ensures SrpGetNode(SrpSetNode(field, address, target), address) == target <==> target != address || target == 0
  {
    TaggedDistance(field, address, target);
  }

  // ---------------------------------------------------------------------------------------
  // Relocation
  // ---------------------------------------------------------------------------------------

  /** Where an address lies after a move by `delta`, which may wrap around. */
  function Moved(address: nat, delta: nat): (a: nat)
    requires IsWord(address) && IsWord(delta)
    ensures IsWord(a)
  {
    if address + delta < TWO64 then address + delta else address + delta - TWO64
  }

  lemma MovedIsSum(address: nat, delta: nat)
    requires IsWord(address) && IsWord(delta)
    ensures Moved(address, delta) == (address + delta) % TWO64
  {
  }

  /** The assignments after which a link reads NULL only if NULL was stored. */
  predicate ProperRun(address: nat, run: seq<Assignment>) {
    forall i | 0 <= i < |run| ::
      Proper(address, run[i]) && (run[i].ToNonNullNode? ==> run[i].target != 0)
  }

  /** What an assignment does to the stored distance being zero. */
  lemma AssignNull(field: nat, address: nat, a: Assignment)
    requires IsWord(address) && Aligned(address) && Proper(address, a)
    ensures
      var stored := GetNode(Assign(field, address, a));
      match a
      case ToNode(target) => stored == 0 <==> target == 0
      case ToNonNullNode(target) => stored != 0
      case ToNull => stored == 0
      case ToBalance(_) => stored == GetNode(field)
  {
    match a
    case ToNode(target) => TaggedDistance(field, address, target);
    case ToNonNullNode(target) => TaggedDistance(field, address, target);
    case ToNull =>
    case ToBalance(b) => OrTagParts(b, Untagged(field));
  }

  /** The stored distance is zero exactly while the node last assigned is NULL. */
  lemma {:induction false} NullStored(address: nat, run: seq<Assignment>)
    requires IsWord(address) && Aligned(address) && ProperRun(address, run)
    ensures GetNode(AssignAll(0, address, run)) == 0 <==> LastNode(0, run) == 0
    decreases |run|
  {
    if run != [] {
      var n := |run| - 1;
      NullStored(address, run[..n]);
      AssignNull(AssignAll(0, address, run[..n]), address, run[n]);
    }
  }

  /** Reading a field at its new place. */
  lemma MovedRead(field: nat, address: nat, delta: nat)
    requires IsWord(address) && IsWord(delta)
    ensures IsWord(SrpGetNode(field, address)) && IsWord(NnSrpGetNode(field, address))
    ensures SrpGetNode(field, Moved(address, delta))
         == if GetNode(field) == 0 then 0 else Moved(SrpGetNode(field, address), delta)
    ensures NnSrpGetNode(field, Moved(address, delta)) == Moved(NnSrpGetNode(field, address), delta)
  {
    var target := NnSrpGetNode(field, address);
    MovedIsSum(address, delta);
    MovedIsSum(target, delta);
    MovedSum(address, delta, GetNode(field), target);
  }

  /** One field after a move: whatever has been assigned to it, its link has moved along and its balance is kept. */
  lemma MoveKeepsLink(address: nat, run: seq<Assignment>, delta: nat)
    requires IsWord(address) && Aligned(address) && ProperRun(address, run) && IsWord(delta)
    ensures
      var field, node := AssignAll(0, address, run), LastNode(0, run);
      && IsWord(node)
      && SrpGetNode(field, Moved(address, delta)) == (if node == 0 then 0 else Moved(node, delta))
      && (node != 0 ==> NnSrpGetNode(field, Moved(address, delta)) == Moved(node, delta))
      && GetBalance(field) == LastBalance(0, run)
  {
    NullStored(address, run);
    LastAssignmentWins(0, address, run);
    MovedRead(AssignAll(0, address, run), address, delta);
  }

  /** The fields of a block by address, each after its own run of assignments. */
  function Block(runs: map<nat, seq<Assignment>>): map<nat, nat> {
    map a | a in runs :: AssignAll(0, a, runs[a])
  }

  lemma MovedInjective(addresses: set<nat>, delta: nat)
    requires IsWord(delta) && forall a | a in addresses :: IsWord(a)
    ensures forall a, b | a in addresses && b in addresses && a != b :: Moved(a, delta) != Moved(b, delta)
  {
    forall a, b | a in addresses && b in addresses && a != b
      ensures Moved(a, delta) != Moved(b, delta)
    {
      assert IsWord(a) && IsWord(b);
    }
  }

  /** The block with the same contents, each field `delta` further on. */
  function MoveBlock(block: map<nat, nat>, delta: nat): map<nat, nat>
    requires IsWord(delta) && forall a | a in block :: IsWord(a)
  {
    MovedInjective(block.Keys, delta);
    map a | a in block :: Moved(a, delta) := block[a]
  }

  /**
   Relocation: when a block of fields is moved as a whole, whatever has been assigned to them, every link
   that is not NULL leads to its target's new place, every NULL link stays NULL, and the balances stay.
   */
  lemma MoveKeepsLinks(runs: map<nat, seq<Assignment>>, delta: nat)
    requires IsWord(delta) && forall a | a in runs :: IsWord(a) && Aligned(a) && ProperRun(a, runs[a])
    ensures forall a | a in runs :: MovedAlong(a, runs[a], delta, MoveBlock(Block(runs), delta))
  {
    forall a | a in runs
      ensures MovedAlong(a, runs[a], delta, MoveBlock(Block(runs), delta))
    {
      MoveKeepsLink(a, runs[a], delta);
      MovedContents(Block(runs), delta, a);
    }
  }

  /** The field that was at `a`, found in the moved block: link and balance. */
  predicate MovedAlong(a: nat, run: seq<Assignment>, delta: nat, moved: map<nat, nat>)
    requires IsWord(a) && IsWord(delta)
  {
    var b, node := Moved(a, delta), LastNode(0, run);
    && b in moved && IsWord(node)
    && SrpGetNode(moved[b], b) == (if node == 0 then 0 else Moved(node, delta))
    && GetBalance(moved[b]) == LastBalance(0, run)
  }

  lemma MovedContents(block: map<nat, nat>, delta: nat, a: nat)
    requires IsWord(delta) && (forall x | x in block :: IsWord(x)) && a in block
    ensures Moved(a, delta) in MoveBlock(block, delta) && MoveBlock(block, delta)[Moved(a, delta)] == block[a]
  {
  }

  lemma MovedSum(address: int, delta: int, d: int, target: int)
    requires (address + d) % TWO64 == target
    ensures ((address + delta) % TWO64 + d) % TWO64 == (target + delta) % TWO64
  {
    var i, j := (address + d) / TWO64, (address + delta) / TWO64;
    assert address + d == i * TWO64 + target;
    assert address + delta == j * TWO64 + (address + delta) % TWO64;
    assert (address + delta) % TWO64 + d == target + delta + (i - j) * TWO64;
  }

  // ---------------------------------------------------------------------------------------
  // The field as an object
  // ---------------------------------------------------------------------------------------

  /** A child link of an AVL node, with the balance in its tag. */
  class TaggedLink {
    const address: nat
    var field: nat

    constructor (address: nat)
      ensures this.address == address && field == 0
    {
      this.address, field := address, 0;
    }

    method SetNode(target: nat)
      requires IsWord(address) && Aligned(address) && IsWord(target) && Aligned(target) && target != address
      modifies this
      ensures SrpGetNode(field, address) == target && GetBalance(field) == GetBalance(old(field))
    {
      AssignKeepsOther(field, address, ToNode(target));
      field := OrTag(Tag(field), if target != 0 then Distance(target, address) else 0);
    }

    method SetTag(balance: Bits)
      requires IsWord(address) && Aligned(address)
      modifies this
      ensures SrpGetNode(field, address) == SrpGetNode(old(field), address) && GetBalance(field) == balance
    {
      AssignKeepsOther(field, address, ToBalance(balance));
      field := OrTag(balance, Untagged(field));
    }
  }

  // ---------------------------------------------------------------------------------------
  // 32-bit self-relative pointers
  // ---------------------------------------------------------------------------------------

  function Wrap32(x: int): int {
    (x + TWO31) % TWO32 - TWO31
  }

  /** SRP_SET: the pointer difference, truncated to `J9SRP`. */
  function SrpSet(address: int, target: int): int {
    if target != 0 then Wrap32(Wrap64(target - address)) else 0
  }

  /** SRP_GET */
  function SrpGet(field: int, address: int): int {
    if field != 0 then (address + field) % TWO64 else 0
  }

  /** A 32-bit link reads back its target exactly when the target is NULL, or near enough and not the field itself. */
  lemma SrpRoundTrip(address: int, target: int)
    requires IsWord(address) && IsWord(target)
    ensures SrpGet(SrpSet(address, target), address) == target
       <==> target == 0 || (target != address && -TWO31 <= Wrap64(target - address) < TWO31)
  {
    if target != 0 {
      var d := Wrap64(target - address);
      var k := (target - address - d) / TWO64;
      assert target == address + d + k * TWO64;
      var f := Wrap32(d);
      if f == d {
        assert d != 0 ==> (address + d) % TWO64 == target;
      } else if f != 0 {
        NearlyEqual(address, d, f, target, k);
      }
    }
  }

  lemma NearlyEqual(address: int, d: int, f: int, target: int, k: int)
    requires IsWord(target) && target == address + d + k * TWO64
    requires -TWO63 <= d < TWO63 && -TWO31 <= f < TWO31 && f != d
    ensures (address + f) % TWO64 != target
  {
    var r := (address + f) % TWO64;
    var j := (address + f) / TWO64;
    assert address + f == j * TWO64 + r;
    assert r == target ==> f - d == (j + k) * TWO64;
  }
}
