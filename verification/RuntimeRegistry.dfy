/** The VM registry of an OMR runtime (omr/OMR_Runtime.cpp). */
module RuntimeRegistry {
  import opened CircularList
  import opened MachineInts
  import opened Options

  datatype Code =
    | NoError
    | MaximumVmCountExceeded
    | VmStillAttached
    | FailedToAttachNativeThread
    | OutOfNativeMemory

  /** The runtime as a value; `mutex` says that the list mutex exists. */
  datatype Runtime = Runtime(vms: seq<Address>, count: Word, maximum: Word, initialized: bool, mutex: bool)

  datatype Call =
    | Initialize(nativeOk: bool, mutexOk: bool)
    | AttachVM(vm: Address)
    | DetachVM(vm: Address)
    | Destroy(nativeOk: bool)

  /** Attach and detach take the list mutex; attach an unlisted VM, detach a listed one. */
  predicate Allowed(r: Runtime, c: Call) {
    match c
    case Initialize(_, _) => true
    case AttachVM(v) => r.mutex && v !in r.vms
    case DetachVM(v) => r.mutex && v in r.vms
    case Destroy(_) => true
  }

  function Perform(r: Runtime, c: Call): (Runtime, Code)
    requires Allowed(r, c)
  {
    match c
    case Initialize(nativeOk, mutexOk) =>
      if !nativeOk then (r, FailedToAttachNativeThread)
      else if mutexOk then (r.(initialized := true, mutex := true), NoError)
      else (r, OutOfNativeMemory)
    case AttachVM(v) =>
      if r.maximum == 0 || r.count < r.maximum then (r.(vms := r.vms + [v], count := Increment(r.count)), NoError)
      else (r, MaximumVmCountExceeded)
    case DetachVM(v) => (r.(vms := Delete(r.vms, IndexOf(r.vms, v)), count := Decrement(r.count)), NoError)
    case Destroy(nativeOk) =>
      if !nativeOk then (r, FailedToAttachNativeThread)
      else if !r.initialized then (r, NoError)
      else if r.count == 0 then (r.(mutex := false, initialized := false), NoError)
      else (r, VmStillAttached)
  }

  predicate WellCounted(r: Runtime) {
    && Distinct(r.vms) && r.count == |r.vms|
    && (r.maximum != 0 ==> r.count <= r.maximum)
    && (r.mutex <==> r.initialized)
    && (r.vms != [] ==> r.mutex)
  }

  lemma CallKeepsCounts(r: Runtime, c: Call)
    requires WellCounted(r) && Allowed(r, c)
    ensures WellCounted(Perform(r, c).0) && Perform(r, c).0.maximum == r.maximum
  {
    if c.AttachVM? {
      DistinctFits(r.vms + [c.vm]);
    } else if c.DetachVM? {
      var i := IndexOf(r.vms, c.vm);
      var d := Delete(r.vms, i);
      assert forall j | 0 <= j < |d| :: d[j] == r.vms[if j < i then j else j + 1];
    }
  }

  ghost predicate Run(rs: seq<Runtime>, cs: seq<Call>) {
    && |rs| == |cs| + 1
    && forall i | 0 <= i < |cs| :: Allowed(rs[i], cs[i]) && rs[i + 1] == Perform(rs[i], cs[i]).0
  }

  /** At every moment of every run the count is the length of the list and within a nonzero maximum. */
  lemma {:induction false} RunKeepsCounts(rs: seq<Runtime>, cs: seq<Call>, i: nat)
    requires Run(rs, cs) && WellCounted(rs[0]) && i <= |cs|
    ensures WellCounted(rs[i]) && rs[i].maximum == rs[0].maximum
  {
    if i > 0 {
      RunKeepsCounts(rs, cs, i - 1);
      CallKeepsCounts(rs[i - 1], cs[i - 1]);
    }
  }

  /**
   `omr_destroy_runtime` anywhere in a run: it takes the mutex away exactly when the runtime was
   initialized, the calling thread could attach and no VM was listed; with a VM listed it answers
   VM_STILL_ATTACHED and changes nothing.
   */
  lemma DestroyOnlyWhenEmpty(rs: seq<Runtime>, cs: seq<Call>, i: nat)
    requires Run(rs, cs) && WellCounted(rs[0]) && i < |cs| && cs[i].Destroy?
    ensures rs[i].mutex && !rs[i + 1].mutex <==> rs[i].initialized && cs[i].nativeOk && rs[i].vms == []
    ensures Perform(rs[i], cs[i]).1 == VmStillAttached
       <==> rs[i].initialized && cs[i].nativeOk && rs[i].vms != []
    ensures Perform(rs[i], cs[i]).1 == FailedToAttachNativeThread <==> !cs[i].nativeOk
    ensures rs[i].vms != [] ==> rs[i + 1] == rs[i]
    ensures rs[i + 1] == rs[i].(initialized := rs[i + 1].initialized, mutex := rs[i + 1].mutex)
  {
    RunKeepsCounts(rs, cs, i);
  }

  /**
   `attachVM` anywhere in a run: it answers NONE exactly when there is no maximum or fewer VMs are listed, and
   then the VM is the last of the list; otherwise it answers MAXIMUM_VM_COUNT_EXCEEDED and changes nothing.
   */
  lemma AttachAnywhere(rs: seq<Runtime>, cs: seq<Call>, i: nat)
    requires Run(rs, cs) && WellCounted(rs[0]) && i < |cs| && cs[i].AttachVM?
    ensures
      var r, q, v, code := rs[i], rs[i + 1], cs[i].vm, Perform(rs[i], cs[i]).1;
      && (code == NoError <==> r.maximum == 0 || |r.vms| < r.maximum)
      && (code != NoError ==> code == MaximumVmCountExceeded && q == r)
      && (code == NoError ==>
            && q.vms != [] && q.vms[|q.vms| - 1] == v && q.vms[..|q.vms| - 1] == r.vms
            && q.count == |q.vms| && q == r.(vms := q.vms, count := q.count))
  {
    RunKeepsCounts(rs, cs, i);
    DistinctFits(rs[i].vms + [cs[i].vm]);
  }

  /** `detachVM` anywhere in a run: it takes that VM off the list, and no other. */
  lemma DetachAnywhere(rs: seq<Runtime>, cs: seq<Call>, i: nat, x: Address)
    requires Run(rs, cs) && WellCounted(rs[0]) && i < |cs| && cs[i].DetachVM?
    ensures
      var r, q, v := rs[i], rs[i + 1], cs[i].vm;
      && Perform(r, cs[i]).1 == NoError
      && (x in q.vms <==> x in r.vms && x != v)
      && q.count == |r.vms| - 1 && q == r.(vms := q.vms, count := q.count)
  {
    RunKeepsCounts(rs, cs, i);
    DeleteMembers(rs[i].vms, IndexOf(rs[i].vms, cs[i].vm));
  }

  /**
   `omr_initialize_runtime` anywhere in a run: NONE exactly when the thread could attach and the mutex be
   made, and then the runtime is initialized and its list as before; otherwise it changes nothing.
   */
  lemma InitializeAnywhere(rs: seq<Runtime>, cs: seq<Call>, i: nat)
    requires Run(rs, cs) && i < |cs| && cs[i].Initialize?
    ensures
      var r, q, code := rs[i], rs[i + 1], Perform(rs[i], cs[i]).1;
      && (code == NoError <==> cs[i].nativeOk && cs[i].mutexOk)
      && (code == FailedToAttachNativeThread <==> !cs[i].nativeOk)
      && (code == OutOfNativeMemory <==> cs[i].nativeOk && !cs[i].mutexOk)
      && (code == NoError ==> q == r.(initialized := true, mutex := true))
      && (code != NoError ==> q == r)
  {
    assert rs[i + 1] == Perform(rs[i], cs[i]).0;
  }

  class OmrRuntime {
    const list: LinkedList<Address>
    var count: Word
    var maximum: Word
    var initialized: bool
    var mutex: bool

    ghost function State(): Runtime
      reads this, list
    {
      Runtime(list.elems, count, maximum, initialized, mutex)
    }

    ghost predicate Valid()
      reads this, list
    {
      list.Valid() && WellCounted(State())
    }

    constructor (limit: Word)
      ensures Valid() && fresh(list) && State() == Runtime([], 0, limit, false, false)
    {
      list := new LinkedList<Address>();
      count, maximum, initialized, mutex := 0, limit, false, false;
    }

    method InitializeRuntime(nativeOk: bool, mutexOk: bool) returns (code: Code)
      requires Valid()
      modifies this
      ensures Valid() && (State(), code) == Perform(old(State()), Initialize(nativeOk, mutexOk))
    {
      code := NoError;
      if nativeOk {
        if mutexOk {
          mutex := true;
          initialized := true;
        } else {
          code := OutOfNativeMemory;
        }
      } else {
        code := FailedToAttachNativeThread;
      }
    }

    method Attach(vm: Address) returns (code: Code)
      requires Valid() && mutex && vm !in list.elems
      modifies this, list
      ensures Valid() && (State(), code) == Perform(old(State()), AttachVM(vm))
    {
      CallKeepsCounts(State(), AttachVM(vm));
      code := NoError;
      if maximum == 0 || count < maximum {
        list.AddLast(vm);
        count := Increment(count);
      } else {
        code := MaximumVmCountExceeded;
      }
    }

    method Detach(vm: Address) returns (code: Code)
      requires Valid() && mutex && vm in list.elems
      modifies this, list
      ensures Valid() && (State(), code) == Perform(old(State()), DetachVM(vm))
    {
      CallKeepsCounts(State(), DetachVM(vm));
      list.Remove(vm);
      count := Decrement(count);
      code := NoError;
    }

    method DestroyRuntime(nativeOk: bool) returns (code: Code)
      requires Valid()
      modifies this
      ensures Valid() && (State(), code) == Perform(old(State()), Destroy(nativeOk))
    {
      code := NoError;
      if nativeOk {
        if initialized {
          if count == 0 {
            mutex := false;
            initialized := false;
          } else {
            code := VmStillAttached;
          }
        }
      } else {
        code := FailedToAttachNativeThread;
      }
    }
  }
}
