/** Byte accounting of the method dictionary: `_currentBytes`, `_maxBytes` and `_maxEntries` over whole runs. */
module DictionaryAccount {
  import opened DictionarySpec
  import opened Options

  // ---------------------------------------------------------------------------------------
  // Bytes of the live entries
  // ---------------------------------------------------------------------------------------

  ghost function LiveBytes(size: nat, dict: Dictionary): nat
    decreases |dict|
  {
    if dict == map[] then 0
    else
      var key :| key in dict;
      size + NameBytes(dict[key]) + LiveBytes(size, dict - {key})
  }

  lemma {:induction false} LiveBytesRemove(size: nat, dict: Dictionary, key: nat)
    requires key in dict
    ensures LiveBytes(size, dict) == size + NameBytes(dict[key]) + LiveBytes(size, dict - {key})
    decreases |dict|
  {
    var first :| first in dict &&
                 LiveBytes(size, dict) == size + NameBytes(dict[first]) + LiveBytes(size, dict - {first});
    if first != key {
      LiveBytesRemove(size, dict - {first}, key);
      LiveBytesRemove(size, dict - {key}, first);
      assert dict - {first} - {key} == dict - {key} - {first};
    }
  }

  lemma LiveBytesSet(size: nat, dict: Dictionary, key: nat, vals: Values)
    ensures LiveBytes(size, dict[key := vals])
         == size + NameBytes(vals) + LiveBytes(size, dict - {key})
  {
    LiveBytesRemove(size, dict[key := vals], key);
    assert dict[key := vals] - {key} == dict - {key};
  }

  // ---------------------------------------------------------------------------------------
  // Insert and retrieve
  // ---------------------------------------------------------------------------------------

  datatype Account = Account(dict: Dictionary, current: int, maximum: int, maxEntries: nat)

  predicate AllNull(vals: Values) {
    forall i | 0 <= i < |vals| :: vals[i].None?
  }

  /**
   Whether `insert` charges `_sizeofEntry`: for a new key, and for a present one whose string pointers
   are all NULL in the table and in the new entry alike, which `entryValueEquals` takes for new.
   */
  predicate ChargesEntry(dict: Dictionary, key: nat, vals: Values) {
    key !in dict || (AllNull(dict[key]) && AllNull(vals))
  }

  /** `insert` when all allocations succeed. */
  function Insert(size: nat, a: Account, key: nat, vals: Values): Account {
    var dict := a.dict[key := vals];
    var current := a.current + (if ChargesEntry(a.dict, key, vals) then size else 0) + NameBytes(vals);
    if current > a.maximum then Account(dict, current, current, |dict|)
    else Account(dict, current, a.maximum, a.maxEntries)
  }

  function GetEntries(size: nat, a: Account, keys: seq<nat>, nameBytes: nat): Account {
    var t := ScanAll(size, Start(a.dict, a.current, nameBytes), keys);
    a.(dict := t.dict, current := t.currentBytes)
  }

  datatype Call = DoInsert(key: nat, vals: Values) | DoGetEntries(keys: seq<nat>, nameBytes: nat)

  function Perform(size: nat, a: Account, c: Call): Account {
    match c
    case DoInsert(key, vals) => Insert(size, a, key, vals)
    case DoGetEntries(keys, nameBytes) => GetEntries(size, a, keys, nameBytes)
  }

  /** `states` are the accounts that the calls lead through, from an empty dictionary. */
  ghost predicate Run(size: nat, states: seq<Account>, cs: seq<Call>) {
    && |states| == |cs| + 1
    && states[0] == Account(map[], 0, 0, 0)
    && forall i | 0 <= i < |cs| :: states[i + 1] == Perform(size, states[i], cs[i])
  }

  // ---------------------------------------------------------------------------------------
  // The charge covers the live entries
  // ---------------------------------------------------------------------------------------

  /** Retrieval gives back exactly what the retrieved entries occupy, at every point of its loop. */
  lemma {:induction false} ScanKeepsSlack(size: nat, s: Scan, keys: seq<nat>)
    ensures var t := ScanAll(size, s, keys);
            t.currentBytes - LiveBytes(size, t.dict) == s.currentBytes - LiveBytes(size, s.dict)
    decreases |keys|
  {
    if keys != [] {
      if keys[0] in s.dict {
        LiveBytesRemove(size, s.dict, keys[0]);
      }
      ScanKeepsSlack(size, ScanOne(size, s, keys[0]), keys[1..]);
    }
  }

  /** An insert adds to the charge beyond the live entries exactly what an overwritten entry had occupied. */
  lemma InsertSlack(size: nat, a: Account, key: nat, vals: Values)
    ensures var b := Insert(size, a, key, vals);
            b.current - LiveBytes(size, b.dict) == a.current - LiveBytes(size, a.dict) +
              (if key !in a.dict then 0
               else if ChargesEntry(a.dict, key, vals) then size
               else NameBytes(a.dict[key]))
  {
    LiveBytesSet(size, a.dict, key, vals);
    if key in a.dict {
      LiveBytesRemove(size, a.dict, key);
      if AllNull(a.dict[key]) {
        AllNullNeedsNothing(a.dict[key]);
      }
    } else {
      assert a.dict - {key} == a.dict;
    }
  }

  lemma {:induction false} AllNullNeedsNothing(vals: Values)
    requires AllNull(vals)
    ensures NameBytes(vals) == 0
    decreases |vals|
  {
    if vals != [] {
      AllNullNeedsNothing(vals[1..]);
    }
  }

  /** At every moment of every run the charge covers the live entries, so no subtraction can wrap. */
  lemma {:induction false} ChargeCoversLive(size: nat, states: seq<Account>, cs: seq<Call>, i: nat)
    requires Run(size, states, cs) && i <= |cs|
    ensures states[i].current >= LiveBytes(size, states[i].dict)
  {
    if i > 0 {
      ChargeCoversLive(size, states, cs, i - 1);
      var a, c := states[i - 1], cs[i - 1];
      match c
      case DoInsert(key, vals) => InsertSlack(size, a, key, vals);
      case DoGetEntries(keys, nameBytes) => ScanKeepsSlack(size, Start(a.dict, a.current, nameBytes), keys);
    }
  }

  /** The same inside `getEntries`: before each method the charge covers what is still in the dictionary. */
  lemma ChargeCoversLiveDuringScan(size: nat, states: seq<Account>, cs: seq<Call>, i: nat, k: nat)
    requires Run(size, states, cs) && i < |cs| && cs[i].DoGetEntries? && k <= |cs[i].keys|
    ensures var t := ScanAll(size, Start(states[i].dict, states[i].current, cs[i].nameBytes), cs[i].keys[..k]);
            t.currentBytes >= LiveBytes(size, t.dict)
  {
    ChargeCoversLive(size, states, cs, i);
    ScanKeepsSlack(size, Start(states[i].dict, states[i].current, cs[i].nameBytes), cs[i].keys[..k]);
  }

  // ---------------------------------------------------------------------------------------
  // What is retrieved
  // ---------------------------------------------------------------------------------------

  /** Call number `j` inserts `key`. */
  predicate InsertsKey(cs: seq<Call>, j: nat, key: nat)
    requires j < |cs|
  {
    cs[j].DoInsert? && cs[j].key == key
  }

  /**
   Over every run an entry that is present holds the strings of the last insert of its key; it has been
   present ever since, so no retrieval has returned it in between.
   */
  lemma {:induction false} EntryIsLastInserted(size: nat, states: seq<Account>, cs: seq<Call>, i: nat, key: nat)
    returns (j: nat)
    requires Run(size, states, cs) && i <= |cs| && key in states[i].dict
    ensures j < i && InsertsKey(cs, j, key) && states[i].dict[key] == cs[j].vals
    ensures forall k | j < k < i :: !InsertsKey(cs, k, key) && key in states[k].dict
  {
    assert states[i] == Perform(size, states[i - 1], cs[i - 1]);
    if InsertsKey(cs, i - 1, key) {
      j := i - 1;
    } else {
      WasThere(size, states[i - 1], cs[i - 1], key);
      j := EntryIsLastInserted(size, states, cs, i - 1, key);
    }
  }

  /** An entry that is present after a call that did not insert it was there before, with the same strings. */
  lemma WasThere(size: nat, a: Account, c: Call, key: nat)
    requires key in Perform(size, a, c).dict && (c.DoInsert? ==> c.key != key)
    ensures key in a.dict && Perform(size, a, c).dict[key] == a.dict[key]
  {
    if c.DoGetEntries? {
      RetrievedLeave(size, Start(a.dict, a.current, c.nameBytes), c.keys, key);
    }
  }

  /** An insert makes its key present with its strings and leaves every other entry alone. */
  lemma InsertedIsPresent(size: nat, a: Account, key: nat, vals: Values, other: nat)
    ensures
      var b := Insert(size, a, key, vals);
      && key in b.dict && b.dict[key] == vals
      && (other != key ==> (other in b.dict <==> other in a.dict))
      && (other != key && other in a.dict ==> b.dict[other] == a.dict[other])
  {
  }

  /** What `getEntries` returns for a present key that fits is what was inserted last under it. */
  lemma RetrievedIsLastInserted(size: nat, states: seq<Account>, cs: seq<Call>, i: nat, nameBytes: nat, key: nat)
    returns (j: nat)
    requires Run(size, states, cs) && i <= |cs| && key in states[i].dict && NameBytes(states[i].dict[key]) <= nameBytes
    ensures j < i && InsertsKey(cs, j, key) && forall k | j < k < i :: !InsertsKey(cs, k, key)
    ensures ScanAll(size, Start(states[i].dict, states[i].current, nameBytes), [key]).descs
         == [Description(Retrieved, cs[j].vals)]
  {
    j := EntryIsLastInserted(size, states, cs, i, key);
    var s := Start(states[i].dict, states[i].current, nameBytes);
    assert ScanAll(size, s, [key]) == ScanAll(size, ScanOne(size, s, key), [key][1..]);
  }

  /** Call number `j` inserts a key that is already present. */
  predicate Overwrites(states: seq<Account>, cs: seq<Call>, j: nat)
    requires j < |cs| < |states|
  {
    cs[j].DoInsert? && cs[j].key in states[j].dict
  }

  /** While no present key is inserted again, the charge is exactly the bytes of the live entries. */
  lemma {:induction false} ChargeExact(size: nat, states: seq<Account>, cs: seq<Call>, i: nat)
    requires Run(size, states, cs) && i <= |cs|
    requires forall j | 0 <= j < i :: !Overwrites(states, cs, j)
    ensures states[i].current == LiveBytes(size, states[i].dict)
  {
    if i > 0 {
      ChargeExact(size, states, cs, i - 1);
      var a, c := states[i - 1], cs[i - 1];
      assert !Overwrites(states, cs, i - 1);
      match c
      case DoInsert(key, vals) => InsertSlack(size, a, key, vals);
      case DoGetEntries(keys, nameBytes) => ScanKeepsSlack(size, Start(a.dict, a.current, nameBytes), keys);
    }
  }

  lemma {:induction false} ScanNeverCharges(size: nat, s: Scan, keys: seq<nat>)
    ensures ScanAll(size, s, keys).currentBytes <= s.currentBytes
    decreases |keys|
  {
    if keys != [] {
      ScanNeverCharges(size, ScanOne(size, s, keys[0]), keys[1..]);
    }
  }

  /** Moment `j` is the first at which the charge was `maximum`, and `entries` entries were there. */
  predicate FirstAt(states: seq<Account>, j: nat, maximum: int, entries: nat)
    requires j < |states|
  {
    && states[j].current == maximum && |states[j].dict| == entries
    && forall k | 0 <= k < j :: states[k].current < maximum
  }

  /**
   `_maxBytes` is the highest value `_currentBytes` has had so far, and `_maxEntries` the number of entries
   when it was first reached.
   */
  lemma {:induction false} MaximumIsHighest(size: nat, states: seq<Account>, cs: seq<Call>, i: nat)
    requires Run(size, states, cs) && i <= |cs|
    ensures forall j | 0 <= j <= i :: states[j].current <= states[i].maximum
    ensures exists j | 0 <= j <= i :: FirstAt(states, j, states[i].maximum, states[i].maxEntries)
  {
    if i == 0 {
      assert FirstAt(states, 0, states[0].maximum, states[0].maxEntries);
    } else {
      MaximumIsHighest(size, states, cs, i - 1);
      var a, c := states[i - 1], cs[i - 1];
      assert states[i] == Perform(size, a, c);
      if c.DoGetEntries? {
        ScanNeverCharges(size, Start(a.dict, a.current, c.nameBytes), c.keys);
      }
      if states[i].maximum == a.maximum && states[i].maxEntries == a.maxEntries {
        var j :| 0 <= j <= i - 1 && FirstAt(states, j, a.maximum, a.maxEntries);
        assert FirstAt(states, j, states[i].maximum, states[i].maxEntries);
      } else {
        assert FirstAt(states, i, states[i].maximum, states[i].maxEntries);
      }
    }
  }

  // ---------------------------------------------------------------------------------------
  // A string allocation that fails
  // ---------------------------------------------------------------------------------------

  /**
   What a failed `insert` leaves in the table under its key when the copy of string `failAt` cannot be
   allocated: the strings copied so far are released, and those after it are still the caller's if the
   entry was new, or gone if an old entry had been cleared.
   */
  function Leftover(dict: Dictionary, key: nat, vals: Values, failAt: nat): Values
    requires failAt < |vals|
  {
    seq(|vals|, i requires 0 <= i < |vals| => if i <= failAt || key in dict then None else vals[i])
  }

  function FailedInsert(a: Account, key: nat, vals: Values, failAt: nat): Account
    requires failAt < |vals| && vals[failAt].Some?
  {
    a.(dict := a.dict[key := Leftover(a.dict, key, vals, failAt)])
  }

  /**
   A failed insert stays within the charge exactly when the key was present, or when earlier
   overwrites have left at least the size of the uncharged entry to spare.
   */
  lemma FailedInsertCovered(size: nat, a: Account, key: nat, vals: Values, failAt: nat)
    requires failAt < |vals| && vals[failAt].Some?
    requires a.current >= LiveBytes(size, a.dict)
    ensures var b := FailedInsert(a, key, vals, failAt);
            b.current >= LiveBytes(size, b.dict) <==>
              key in a.dict ||
              a.current - LiveBytes(size, a.dict) >= size + NameBytes(Leftover(a.dict, key, vals, failAt))
  {
    var left := Leftover(a.dict, key, vals, failAt);
    LiveBytesSet(size, a.dict, key, left);
    if key in a.dict {
      LiveBytesRemove(size, a.dict, key);
      AllNullNeedsNothing(left);
    } else {
      assert a.dict - {key} == a.dict;
    }
  }
}
