/**
 The method dictionary (omr/OMR_MethodDictionary.cpp) on values: what retrieving a list of methods
 with a limited name buffer means, and how the dictionary accounts for its bytes.
 */
module DictionarySpec {
  import opened Options

  /** The property strings of a method; a missing property is `None`. */
  type Values = seq<Option<string>>

  type Dictionary = map<nat, Values>

  /** Space needed for the strings of an entry, terminators included. */
  function NameBytes(vals: Values): nat {
    if vals == [] then 0
    else NameBytes(vals[1..]) + (if vals[0].Some? then |vals[0].value| + 1 else 0)
  }

  datatype Reason = Retrieved | Unavailable | Retry

  /** One method description; the strings are meaningful when it was retrieved. */
  datatype Description = Description(reason: Reason, values: Values)

  /** The state of `getEntries` between two methods. `size` in the functions is `_sizeofEntry`. */
  datatype Scan = Scan(
    dict: Dictionary, currentBytes: int, descs: seq<Description>,
    available: nat, retrying: bool, firstRetry: nat, remaining: nat)

  function Start(dict: Dictionary, currentBytes: int, nameBytes: nat): Scan {
    Scan(dict, currentBytes, [], nameBytes, false, 0, 0)
  }

  function ScanOne(size: nat, s: Scan, key: nat): Scan {
    if key !in s.dict then s.(descs := s.descs + [Description(Unavailable, [])])
    else
      var need := NameBytes(s.dict[key]);
      if s.retrying then
        s.(descs := s.descs + [Description(Retry, [])], remaining := s.remaining + need)
      else if need <= s.available then
        s.(dict := s.dict - {key}, currentBytes := s.currentBytes - need - size,
           descs := s.descs + [Description(Retrieved, s.dict[key])], available := s.available - need)
      else
        s.(descs := s.descs + [Description(Retry, [])], retrying := true,
           firstRetry := |s.descs|, remaining := s.remaining + need)
  }

  function ScanAll(size: nat, s: Scan, keys: seq<nat>): Scan
    decreases |keys|
  {
    if keys == [] then s else ScanAll(size, ScanOne(size, s, keys[0]), keys[1..])
  }

  lemma {:induction false} ScanAppend(size: nat, s: Scan, a: seq<nat>, b: seq<nat>)
    ensures ScanAll(size, s, a + b) == ScanAll(size, ScanAll(size, s, a), b)
    decreases |a|
  {
    if a == [] {
      assert a + b == b;
    } else {
      assert (a + b)[1..] == a[1..] + b;
      ScanAppend(size, ScanOne(size, s, a[0]), a[1..], b);
    }
  }

  // ---------------------------------------------------------------------------------------
  // Retrieval without a limit
  // ---------------------------------------------------------------------------------------

  /** Every present method is returned and leaves the dictionary; a repeated key finds it gone. */
  function RetrieveAll(dict: Dictionary, keys: seq<nat>): (Dictionary, seq<Description>) {
    if keys == [] then (dict, [])
    else
      var (d, ds) := RetrieveAll(dict - {keys[0]}, keys[1..]);
      (d, [if keys[0] in dict then Description(Retrieved, dict[keys[0]]) else Description(Unavailable, [])] + ds)
  }

  /** Without a flip to RETRY mode the scan is retrieval without a limit. */
  lemma {:induction false} ScanIsRetrieveAll(size: nat, s: Scan, keys: seq<nat>)
    requires !s.retrying && !ScanAll(size, s, keys).retrying
    ensures var (d, ds) := RetrieveAll(s.dict, keys);
            ScanAll(size, s, keys).dict == d && ScanAll(size, s, keys).descs == s.descs + ds
    decreases |keys|
  {
    if keys != [] {
      var t := ScanOne(size, s, keys[0]);
      if t.retrying {
        RetryingStays(size, t, keys[1..]);
      } else {
        ScanIsRetrieveAll(size, t, keys[1..]);
        assert keys[0] !in s.dict ==> s.dict - {keys[0]} == s.dict;
      }
    }
  }

  lemma {:induction false} RetrieveAllAppend(dict: Dictionary, a: seq<nat>, b: seq<nat>)
    ensures var (d, ds) := RetrieveAll(dict, a);
            var (e, es) := RetrieveAll(d, b);
            RetrieveAll(dict, a + b).0 == e && RetrieveAll(dict, a + b).1 == ds + es
    decreases |a|
  {
    if a == [] {
      assert a + b == b;
    } else {
      assert (a + b)[1..] == a[1..] + b;
      RetrieveAllAppend(dict - {a[0]}, a[1..], b);
    }
  }

  // ---------------------------------------------------------------------------------------
  // RETRY mode only counts
  // ---------------------------------------------------------------------------------------

  function Need(dict: Dictionary, key: nat): nat {
    if key in dict then NameBytes(dict[key]) else 0
  }

  /** Name bytes of the present methods of a list, counted once per position. */
  function NeedAll(dict: Dictionary, keys: seq<nat>): nat {
    if keys == [] then 0 else Need(dict, keys[0]) + NeedAll(dict, keys[1..])
  }

  lemma {:induction false} RetryingStays(size: nat, s: Scan, keys: seq<nat>)
    requires s.retrying
    ensures var t := ScanAll(size, s, keys);
            && t.retrying && t.dict == s.dict && t.currentBytes == s.currentBytes && t.available == s.available
            && t.firstRetry == s.firstRetry && t.remaining == s.remaining + NeedAll(s.dict, keys)
            && |t.descs| == |s.descs| + |keys| && t.descs[..|s.descs|] == s.descs
            && (forall i | 0 <= i < |keys| ::
                  t.descs[|s.descs| + i].reason == if keys[i] in s.dict then Retry else Unavailable)
    decreases |keys|
  {
    if keys != [] {
      var u := ScanOne(size, s, keys[0]);
      RetryingStays(size, u, keys[1..]);
      var t := ScanAll(size, s, keys);
      assert t.descs[..|s.descs|] == t.descs[..|u.descs|][..|s.descs|];
      forall i | 0 <= i < |keys|
        ensures t.descs[|s.descs| + i].reason == if keys[i] in s.dict then Retry else Unavailable
      {
        if i == 0 {
          assert t.descs[|s.descs|] == t.descs[..|u.descs|][|s.descs|];
        } else {
          assert keys[i] == keys[1..][i - 1];
        }
      }
    }
  }

  /** A flip happens at the first method that does not fit; up to there the scan had no limit. */
  lemma {:induction false} FlipPoint(size: nat, s: Scan, keys: seq<nat>) returns (k: nat)
    requires !s.retrying && ScanAll(size, s, keys).retrying
    ensures k < |keys| && ScanAll(size, s, keys).firstRetry == |s.descs| + k
    ensures var u := ScanAll(size, s, keys[..k]);
            && !u.retrying && |u.descs| == |s.descs| + k
            && keys[k] in u.dict && NameBytes(u.dict[keys[k]]) > u.available
            && u.remaining == s.remaining
    decreases |keys|
  {
    var t := ScanOne(size, s, keys[0]);
    if t.retrying {
      k := 0;
      assert keys[..0] == [];
      RetryingStays(size, t, keys[1..]);
    } else {
      var j := FlipPoint(size, t, keys[1..]);
      k := j + 1;
      assert keys[..k][1..] == keys[1..][..j];
    }
  }

  // ---------------------------------------------------------------------------------------
  // Enough space
  // ---------------------------------------------------------------------------------------

  lemma {:induction false} NeedAllShrinks(dict: Dictionary, key: nat, keys: seq<nat>)
    ensures NeedAll(dict - {key}, keys) <= NeedAll(dict, keys)
    decreases |keys|
  {
    if keys != [] {
      NeedAllShrinks(dict, key, keys[1..]);
    }
  }

  /** A buffer as large as the counted need never runs out, even though repeated keys were counted twice. */
  lemma {:induction false} EnoughSpace(size: nat, s: Scan, keys: seq<nat>)
    requires !s.retrying && s.available >= NeedAll(s.dict, keys)
    ensures !ScanAll(size, s, keys).retrying
    decreases |keys|
  {
    if keys != [] {
      NeedAllShrinks(s.dict, keys[0], keys[1..]);
      EnoughSpace(size, ScanOne(size, s, keys[0]), keys[1..]);
    }
  }

  /**
   Resumable retrieval. When a call runs out of space, calling again for the methods from
   `firstRetry` on with a buffer of `remaining` bytes succeeds, and the first call's results up to
   that point followed by the second call's are, together with the final dictionary, those of a
   single call without a limit.
   */
  lemma ResumableRetrieval(size: nat, dict: Dictionary, current: int, nameBytes: nat, keys: seq<nat>)
    requires ScanAll(size, Start(dict, current, nameBytes), keys).retrying
    ensures
      var first := ScanAll(size, Start(dict, current, nameBytes), keys);
      && first.firstRetry < |keys| && |first.descs| == |keys|
      && first.descs[first.firstRetry].reason == Retry
      && first.remaining == NeedAll(first.dict, keys[first.firstRetry..])
      && var second := ScanAll(size, Start(first.dict, first.currentBytes, first.remaining), keys[first.firstRetry..]);
         && !second.retrying
         && second.dict == RetrieveAll(dict, keys).0
         && first.descs[..first.firstRetry] + second.descs == RetrieveAll(dict, keys).1
  {
    var s := Start(dict, current, nameBytes);
    var first := ScanAll(size, s, keys);
    var k := FlipPoint(size, s, keys);
    var u := ScanAll(size, s, keys[..k]);
    assert keys == keys[..k] + keys[k..];
    ScanAppend(size, s, keys[..k], keys[k..]);
    RetryTail(size, u, keys[k..]);
    var resume := Start(first.dict, first.currentBytes, first.remaining);
    EnoughSpace(size, resume, keys[k..]);
    ScanIsRetrieveAll(size, s, keys[..k]);
    ScanIsRetrieveAll(size, resume, keys[k..]);
    RetrieveAllAppend(dict, keys[..k], keys[k..]);
    assert first.descs[..k] == u.descs;
  }

  lemma RetryTail(size: nat, u: Scan, keys: seq<nat>)
    requires !u.retrying && keys != [] && keys[0] in u.dict && NameBytes(u.dict[keys[0]]) > u.available
    ensures var t := ScanAll(size, u, keys);
            && t.dict == u.dict && t.remaining == u.remaining + NeedAll(u.dict, keys)
            && |t.descs| == |u.descs| + |keys| && t.descs[..|u.descs|] == u.descs
            && t.descs[|u.descs|].reason == Retry
  {
    var v := ScanOne(size, u, keys[0]);
    RetryingStays(size, v, keys[1..]);
    var t := ScanAll(size, u, keys);
    assert t.descs[..|v.descs|] == v.descs;
    assert t.descs[..|u.descs|] == t.descs[..|v.descs|][..|u.descs|];
    assert t.descs[|u.descs|] == t.descs[..|v.descs|][|u.descs|];
  }

  // ---------------------------------------------------------------------------------------
  // What a scan reports and removes
  // ---------------------------------------------------------------------------------------

  /** Name bytes of the retrieved descriptions. */
  function RetrievedBytes(descs: seq<Description>): nat
    decreases |descs|
  {
    if descs == [] then 0
    else
      var n := |descs| - 1;
      RetrievedBytes(descs[..n]) + (if descs[n].reason.Retrieved? then NameBytes(descs[n].values) else 0)
  }

  /** The retrieved names use up exactly the part of the buffer that is no longer available. */
  lemma {:induction false} BufferUse(size: nat, s: Scan, keys: seq<nat>)
    ensures var t := ScanAll(size, s, keys);
            RetrievedBytes(t.descs) + t.available == RetrievedBytes(s.descs) + s.available
    decreases |keys|
  {
    if keys != [] {
      var u := ScanOne(size, s, keys[0]);
      assert u.descs[..|s.descs|] == s.descs;
      BufferUse(size, u, keys[1..]);
    }
  }

  /**
   Exactly the keys whose description says `Retrieved` leave the dictionary; a key that was present
   and is not reported as retrieved stays with its values, and nothing else changes.
   */
  lemma {:induction false} RetrievedLeave(size: nat, s: Scan, keys: seq<nat>, key: nat)
    ensures var t := ScanAll(size, s, keys);
            && |t.descs| == |s.descs| + |keys| && t.descs[..|s.descs|] == s.descs
            && (key in t.dict <==> key in s.dict && forall i | 0 <= i < |keys| ::
                  keys[i] == key ==> !t.descs[|s.descs| + i].reason.Retrieved?)
            && (key in t.dict ==> t.dict[key] == s.dict[key])
    decreases |keys|
  {
    if keys != [] {
      var u := ScanOne(size, s, keys[0]);
      RetrievedLeave(size, u, keys[1..], key);
      var t := ScanAll(size, s, keys);
      assert t.descs[..|s.descs|] == t.descs[..|u.descs|][..|s.descs|];
      assert t.descs[|s.descs|] == t.descs[..|u.descs|][|s.descs|];
      assert forall i | 1 <= i < |keys| :: keys[i] == keys[1..][i - 1];
      assert forall i | 0 <= i < |keys[1..]| :: keys[1..][i] == keys[i + 1] && |u.descs| + i == |s.descs| + (i + 1);
    }
  }
}
