/**
 Who owns the strings of the method dictionary (omr/OMR_MethodDictionary.cpp). The hash table is a map
 from keys to entries; an entry is its array of string pointers. Native memory is a map from addresses
 to the C strings that live there, the callers' strings included; address 0 is NULL.
 */
module StringOwnership {
  import opened DictionarySpec
  import opened Options
  import opened DictionaryAccount

  // ---------------------------------------------------------------------------------------
  // Entries and ownership
  // ---------------------------------------------------------------------------------------

  function ValueOf(memory: map<nat, string>, ptr: nat): Option<string> {
    if ptr in memory then Some(memory[ptr]) else None
  }

  function ValuesOf(memory: map<nat, string>, ptrs: seq<nat>): (vals: Values)
    ensures |vals| == |ptrs| && forall i | 0 <= i < |ptrs| :: vals[i] == ValueOf(memory, ptrs[i])
  {
    seq(|ptrs|, i requires 0 <= i < |ptrs| => ValueOf(memory, ptrs[i]))
  }

  function ContentsOf(memory: map<nat, string>, table: map<nat, seq<nat>>): Dictionary {
    map key | key in table :: ValuesOf(memory, table[key])
  }

  lemma ContentsSize(memory: map<nat, string>, table: map<nat, seq<nat>>)
    ensures |ContentsOf(memory, table)| == |table|
  {
    assert ContentsOf(memory, table).Keys == table.Keys;
  }

  /** A place in the table: property `index` of the entry of `key`. */
  datatype Place = Place(key: nat, index: nat)

  predicate Holding(n: nat, table: map<nat, seq<nat>>, place: Place, ptr: nat) {
    && place.key in table && |table[place.key]| == n && place.index < n
    && table[place.key][place.index] == ptr
  }

  /**
   `owner` says exactly which strings the dictionary owns and where each is held, the places
   `(except, from..)` not considered: every owned string is held in one place, and every other place
   holds NULL or the string owned there.
   */
  predicate OwnsBut(n: nat, table: map<nat, seq<nat>>, owner: map<nat, Place>, except: nat, lo: nat) {
    && (forall key | key in table :: |table[key]| == n)
    && (forall ptr | ptr in owner ::
          ptr != 0 && Holding(n, table, owner[ptr], ptr) && !(owner[ptr].key == except && owner[ptr].index >= lo))
    && (forall key, i | key in table && 0 <= i < n && !(key == except && i >= lo) && table[key][i] != 0 ::
          table[key][i] in owner && owner[table[key][i]] == Place(key, i))
  }

  predicate Owns(n: nat, table: map<nat, seq<nat>>, owner: map<nat, Place>) {
    OwnsBut(n, table, owner, 0, n)
  }

  lemma OwnsButNothing(n: nat, table: map<nat, seq<nat>>, owner: map<nat, Place>, key: nat)
    ensures Owns(n, table, owner) <==> OwnsBut(n, table, owner, key, n)
  {
    assert forall ptr | ptr in owner && Holding(n, table, owner[ptr], ptr) :: owner[ptr].index < n;
  }

  /** The pointers lead to live strings that the dictionary does not own. */
  predicate CallerStrings(ptrs: seq<nat>, memory: map<nat, string>, owner: map<nat, Place>) {
    forall i | 0 <= i < |ptrs| && ptrs[i] != 0 :: ptrs[i] in memory && ptrs[i] !in owner
  }

  /** The live strings that are not the dictionary's. */
  function OthersOf(memory: map<nat, string>, owner: map<nat, Place>): map<nat, string> {
    memory - owner.Keys
  }

  function Nulls(n: nat): (s: seq<nat>)
    ensures |s| == n && forall i | 0 <= i < n :: s[i] == 0
  {
    seq(n, _ => 0)
  }

  function With(ptrs: seq<nat>, i: nat, ptr: nat): seq<nat>
    requires i < |ptrs|
  {
    ptrs[i := ptr]
  }

  function PtrSet(ptrs: seq<nat>): set<nat> {
    set ptr | ptr in ptrs
  }

  lemma PtrSetOneMore<V>(m: map<nat, V>, ptrs: seq<nat>, i: nat)
    requires i < |ptrs|
    ensures m - PtrSet(ptrs[..i + 1]) == m - PtrSet(ptrs[..i]) - {ptrs[i]}
  {
    assert ptrs[..i + 1] == ptrs[..i] + [ptrs[i]];
    assert PtrSet(ptrs[..i + 1]) == PtrSet(ptrs[..i]) + {ptrs[i]};
  }

  lemma ClearKeepsOwns(n: nat, table: map<nat, seq<nat>>, owner: map<nat, Place>, except: nat, lo: nat,
                       key: nat, i: nat)
    requires OwnsBut(n, table, owner, except, lo) && key in table && i < n && !(key == except && i >= lo)
    ensures OwnsBut(n, table[key := With(table[key], i, 0)], owner - {table[key][i]}, except, lo)
  {
    var t, o := table[key := With(table[key], i, 0)], owner - {table[key][i]};
    forall ptr | ptr in o
      ensures ptr != 0 && Holding(n, t, o[ptr], ptr)
    {
      assert Holding(n, table, owner[ptr], ptr);
    }
  }

  /** Entering the copy of string `i` moves the boundary of the accounted places one on. */
  lemma CopyKeepsOwns(n: nat, table: map<nat, seq<nat>>, owner: map<nat, Place>, key: nat, i: nat, copy: nat)
    requires OwnsBut(n, table, owner, key, i) && key in table && i < n && copy != 0 && copy !in owner
    ensures OwnsBut(n, table[key := With(table[key], i, copy)], owner[copy := Place(key, i)], key, i + 1)
  {
    var t, o := table[key := With(table[key], i, copy)], owner[copy := Place(key, i)];
    forall ptr | ptr in o
      ensures ptr != 0 && Holding(n, t, o[ptr], ptr) && !(o[ptr].key == key && o[ptr].index >= i + 1)
    {
      if ptr != copy {
        assert Holding(n, table, owner[ptr], ptr);
      }
    }
  }

  /** A place that is not accounted for yet may be overwritten. */
  lemma UnaccountedPlace(n: nat, table: map<nat, seq<nat>>, owner: map<nat, Place>, key: nat, i: nat)
    requires OwnsBut(n, table, owner, key, i) && key in table && i < n
    ensures OwnsBut(n, table[key := With(table[key], i, 0)], owner, key, i + 1)
  {
    var t := table[key := With(table[key], i, 0)];
    forall ptr | ptr in owner
      ensures Holding(n, t, owner[ptr], ptr)
    {
      assert Holding(n, table, owner[ptr], ptr);
    }
  }

  /** A NULL string needs no entry in the account of owned strings. */
  lemma NullKeepsOwns(n: nat, table: map<nat, seq<nat>>, owner: map<nat, Place>, key: nat, i: nat)
    requires OwnsBut(n, table, owner, key, i) && key in table && i < n && table[key][i] == 0
    ensures OwnsBut(n, table, owner, key, i + 1)
  {
  }

  lemma ClearOneMore(table: map<nat, seq<nat>>, key: nat, entry: seq<nat>, i: nat)
    requires i < |entry|
    ensures var now := Nulls(i) + entry[i..];
            table[key := now][key := With(now, i, 0)] == table[key := Nulls(i + 1) + entry[i + 1..]]
  {
    assert With(Nulls(i) + entry[i..], i, 0) == Nulls(i + 1) + entry[i + 1..];
  }

  lemma SetTwice(m: map<nat, seq<nat>>, key: nat, a: seq<nat>, b: seq<nat>)
    ensures m[key := a][key := b] == m[key := b]
  {
  }

  /** The entry once string `i` has been set to NULL and those before it have been released. */
  lemma ReleasedEntry(now: seq<nat>, entry: seq<nat>, i: nat)
    requires i < |now| == |entry| && now[i..] == entry[i..]
    ensures With(now, i, 0)[..i] == now[..i]
    ensures Nulls(i) + With(now, i, 0)[i..] == Nulls(i + 1) + entry[i + 1..]
  {
    assert now[i + 1..] == now[i..][1..] == entry[i + 1..];
  }

  /** An entry without owned strings, new or cleared, is not accounted for. */
  lemma EntryUnaccounted(n: nat, table: map<nat, seq<nat>>, owner: map<nat, Place>, key: nat, ptrs: seq<nat>)
    requires Owns(n, table, owner) && |ptrs| == n
    requires key in table ==> table[key] == Nulls(n)
    ensures OwnsBut(n, table[key := ptrs], owner, key, 0)
  {
    var t := table[key := ptrs];
    forall ptr | ptr in owner
      ensures Holding(n, t, owner[ptr], ptr) && owner[ptr].key != key
    {
      assert Holding(n, table, owner[ptr], ptr);
    }
  }

  /** What entries other than that of `key` hold depends on owned strings only. */
  lemma OtherEntries(n: nat, table: map<nat, seq<nat>>, owner: map<nat, Place>, key: nat,
                     a: map<nat, string>, b: map<nat, string>, k: nat)
    requires OwnsBut(n, table, owner, key, 0) && k in table && k != key && 0 !in a && 0 !in b
    requires forall ptr | ptr in owner :: ptr in a && ptr in b && a[ptr] == b[ptr]
    ensures ValuesOf(a, table[k]) == ValuesOf(b, table[k])
  {
    forall i | 0 <= i < n
      ensures ValueOf(a, table[k][i]) == ValueOf(b, table[k][i])
    {
    }
  }

  /**
   Comparing pointers tells a new entry from an overwritten one: with the caller's strings not owned by
   the dictionary, a present entry has the same pointers only if all are NULL on both sides.
   */
  lemma PointersTellCharge(n: nat, table: map<nat, seq<nat>>, owner: map<nat, Place>, memory: map<nat, string>,
                           key: nat, ptrs: seq<nat>)
    requires Owns(n, table, owner) && |ptrs| == n && 0 !in memory
    requires forall ptr | ptr in owner :: ptr in memory
    requires CallerStrings(ptrs, memory, owner)
    ensures key !in table || table[key] == ptrs
       <==> ChargesEntry(ContentsOf(memory, table), key, ValuesOf(memory, ptrs))
    ensures key in table && table[key] == ptrs ==> ptrs == Nulls(n)
  {
    if key in table {
      var entry, vals := table[key], ValuesOf(memory, ptrs);
      if entry == ptrs {
        forall i | 0 <= i < n
          ensures ptrs[i] == 0
        {
        }
      }
      if AllNull(ValuesOf(memory, entry)) && AllNull(vals) {
        forall i | 0 <= i < n
          ensures entry[i] == 0 && ptrs[i] == 0
        {
          assert ValuesOf(memory, entry)[i].None? && vals[i].None?;
        }
        assert entry == ptrs;
      }
    }
  }

  /**
   Changing one entry changes the contents at its key only, as long as the strings owned by the
   others, `owner`, stay as they are from memory `a` to memory `b`.
   */
  lemma ContentsChangeAtKey(n: nat, t: map<nat, seq<nat>>, u: map<nat, seq<nat>>, owner: map<nat, Place>,
                            a: map<nat, string>, b: map<nat, string>, key: nat)
    requires key in u && u == t[key := u[key]] && OwnsBut(n, u, owner, key, 0) && 0 !in a && 0 !in b
    requires forall ptr | ptr in owner :: ptr in a && ptr in b && a[ptr] == b[ptr]
    ensures ContentsOf(b, u) == ContentsOf(a, t)[key := ValuesOf(b, u[key])]
  {
    forall k | k in u && k != key
      ensures ValuesOf(a, t[k]) == ValuesOf(b, u[k])
    {
      OtherEntries(n, u, owner, key, a, b, k);
    }
  }

  /** Copies that were not in memory before leave the strings of the other entries as they were. */
  lemma CopiesApart(memory0: map<nat, string>, mem: map<nat, string>, own: map<nat, Place>,
                    memory: map<nat, string>, copies: seq<nat>)
    requires memory - PtrSet(copies) == mem
    requires forall ptr | ptr in own :: ptr in mem && ptr in memory0 && mem[ptr] == memory0[ptr]
    ensures forall ptr | ptr in own :: ptr in memory && memory[ptr] == memory0[ptr]
  {
    assert forall ptr | ptr in mem :: ptr in memory && memory[ptr] == mem[ptr];
  }

  /** The caller's strings read the same as long as the strings of others stay. */
  lemma CallerValuesStay(ptrs: seq<nat>, memory0: map<nat, string>, owner0: map<nat, Place>,
                         memory: map<nat, string>, owner: map<nat, Place>)
    requires CallerStrings(ptrs, memory0, owner0) && 0 !in memory0 && 0 !in memory
    requires OthersOf(memory, owner) == OthersOf(memory0, owner0)
    ensures CallerStrings(ptrs, memory, owner) && ValuesOf(memory, ptrs) == ValuesOf(memory0, ptrs)
  {
    forall i | 0 <= i < |ptrs| && ptrs[i] != 0
      ensures ptrs[i] in memory && ptrs[i] !in owner && memory[ptrs[i]] == memory0[ptrs[i]]
    {
      assert ptrs[i] in OthersOf(memory0, owner0);
      assert OthersOf(memory, owner)[ptrs[i]] == OthersOf(memory0, owner0)[ptrs[i]];
    }
  }

  /** Strings of others, seen from the whole memory. */
  lemma CallerValuesOf(ptrs: seq<nat>, memory: map<nat, string>, owner: map<nat, Place>)
    requires forall i | 0 <= i < |ptrs| && ptrs[i] != 0 :: ptrs[i] in OthersOf(memory, owner)
    requires 0 !in memory
    ensures CallerStrings(ptrs, memory, owner)
    ensures ValuesOf(memory, ptrs) == ValuesOf(OthersOf(memory, owner), ptrs)
  {
  }

  /** After a copy that failed before place `lo`, ownership is intact exactly when the entry is NULL from there on. */
  lemma FailedEntryOwnership(n: nat, table: map<nat, seq<nat>>, owner: map<nat, Place>, key: nat, lo: nat)
    requires OwnsBut(n, table, owner, key, lo) && key in table && lo <= n
    ensures Owns(n, table, owner) <==> forall i | lo <= i < n :: table[key][i] == 0
  {
    OwnsButNothing(n, table, owner, key);
    if Owns(n, table, owner) {
      forall i | lo <= i < n
        ensures table[key][i] == 0
      {
      }
    }
  }

  /** When all entries are cleared nothing is owned. */
  /** The pointers of every entry not in `todo` are NULL. */
  predicate Cleared(n: nat, table: map<nat, seq<nat>>, todo: set<nat>) {
    forall key | key in table && key !in todo :: table[key] == Nulls(n)
  }

  lemma ClearedNext(n: nat, was: map<nat, seq<nat>>, table: map<nat, seq<nat>>, todo: set<nat>, key: nat)
    requires Cleared(n, was, todo) && table == was[key := Nulls(n)]
    ensures Cleared(n, table, todo - {key})
  {
  }

  lemma NothingOwned(n: nat, table: map<nat, seq<nat>>, owner: map<nat, Place>)
    requires Owns(n, table, owner) && Cleared(n, table, {})
    ensures owner == map[]
  {
    assert forall ptr | ptr in owner :: Holding(n, table, owner[ptr], ptr) && ptr != 0;
  }

  /** Removing a cleared entry from the table. */
  lemma RemoveKeepsOwns(n: nat, table: map<nat, seq<nat>>, owner: map<nat, Place>, key: nat)
    requires Owns(n, table, owner) && key in table && table[key] == Nulls(n)
    ensures Owns(n, table - {key}, owner)
  {
    var t := table - {key};
    forall ptr | ptr in owner
      ensures Holding(n, t, owner[ptr], ptr)
    {
      assert Holding(n, table, owner[ptr], ptr);
    }
  }

  /** Freeing the strings of an entry and removing it takes exactly its key from the contents. */
  lemma RemoveContents(n: nat, table: map<nat, seq<nat>>, owner: map<nat, Place>, memory: map<nat, string>, key: nat)
    requires Owns(n, table, owner) && key in table && 0 !in memory && forall ptr | ptr in owner :: ptr in memory
    ensures ContentsOf(memory - PtrSet(table[key]), table - {key}) == ContentsOf(memory, table) - {key}
  {
    OwnsButNothing(n, table, owner, key);
    OwnsLess(n, table, owner, key, n, table[key]);
    forall k | k in table && k != key
      ensures ValuesOf(memory - PtrSet(table[key]), table[k]) == ValuesOf(memory, table[k])
    {
      OtherEntries(n, table, owner - PtrSet(table[key]), key, memory - PtrSet(table[key]), memory, k);
    }
  }

  /** What the pointers left behind by a failed copy stand for. */
  lemma LeftoverValues(memory: map<nat, string>, dict: Dictionary, key: nat, ptrs: seq<nat>, start: seq<nat>,
                       failAt: nat)
    requires failAt < |ptrs| && 0 !in memory && start == if key in dict then Nulls(|ptrs|) else ptrs
    ensures ValuesOf(memory, Nulls(failAt + 1) + start[failAt + 1..])
         == Leftover(dict, key, ValuesOf(memory, ptrs), failAt)
  {
    var left := Nulls(failAt + 1) + start[failAt + 1..];
    assert forall i | 0 <= i < |ptrs| :: left[i] == if i <= failAt then 0 else start[i];
  }

  /** Dropping the strings of one entry leaves the account of the others. */
  lemma OwnsLess(n: nat, table: map<nat, seq<nat>>, owner: map<nat, Place>, key: nat, lo: nat, ptrs: seq<nat>)
    requires OwnsBut(n, table, owner, key, lo) && key in table && table[key] == ptrs
    requires forall i | lo <= i < n :: ptrs[i] !in owner
    ensures OwnsBut(n, table, owner - PtrSet(ptrs), key, 0)
  {
    var o := owner - PtrSet(ptrs);
    forall ptr | ptr in o
      ensures Holding(n, table, o[ptr], ptr) && o[ptr].key != key
    {
      assert Holding(n, table, owner[ptr], ptr);
    }
  }

  /** The pointers in the table that are not NULL: what `cleanup` hands to the allocator. */
  function Pointers(table: map<nat, seq<nat>>): set<nat> {
    set key, i | key in table && 0 <= i < |table[key]| && table[key][i] != 0 :: table[key][i]
  }

  /**
   After a copy that failed before place `lo`, with strings of the caller from there on, cleaning up would
   free exactly the strings of the dictionary if ownership is intact, and a string of the caller if not.
   */
  lemma CleanupFreesOwn(n: nat, table: map<nat, seq<nat>>, owner: map<nat, Place>, key: nat, lo: nat)
    requires OwnsBut(n, table, owner, key, lo) && key in table && lo <= n
    requires forall i | lo <= i < n :: table[key][i] !in owner
    ensures Pointers(table) == owner.Keys <==> Owns(n, table, owner)
  {
    FailedEntryOwnership(n, table, owner, key, lo);
    if Owns(n, table, owner) {
      forall ptr | ptr in owner
        ensures ptr in Pointers(table)
      {
        assert Holding(n, table, owner[ptr], ptr);
        assert table[owner[ptr].key][owner[ptr].index] == ptr;
      }
    } else {
      var i :| lo <= i < n && table[key][i] != 0;
      assert table[key][i] in Pointers(table);
    }
  }

  /** No string after number `at` is given. */
  predicate LaterNull(ptrs: seq<nat>, at: nat) {
    forall i | at < i < |ptrs| :: ptrs[i] == 0
  }

  /** The entry left behind when the copy of string `failAt` fails, for a key that was present or not. */
  function FailedEntry(present: bool, ptrs: seq<nat>, failAt: nat): seq<nat>
    requires failAt < |ptrs|
  {
    Nulls(failAt + 1) + (if present then Nulls(|ptrs|) else ptrs)[failAt + 1..]
  }

  /** Contents after all strings of an entry have been copied. */
  lemma CopiedContents(n: nat, table0: map<nat, seq<nat>>, table: map<nat, seq<nat>>, memory0: map<nat, string>,
                       mem: map<nat, string>, own: map<nat, Place>, memory: map<nat, string>, owner: map<nat, Place>,
                       key: nat, ptrs: seq<nat>)
    requires key in table && table == table0[key := table[key]] && Owns(n, table, owner)
    requires memory - PtrSet(table[key]) == mem && owner - PtrSet(table[key]) == own && 0 !in memory0 && 0 !in memory
    requires forall ptr | ptr in own :: ptr in mem && ptr in memory0 && mem[ptr] == memory0[ptr]
    requires ValuesOf(memory, table[key]) == ValuesOf(memory0, ptrs)
    ensures ContentsOf(memory, table) == ContentsOf(memory0, table0)[key := ValuesOf(memory0, ptrs)]
  {
    OwnsButNothing(n, table, owner, key);
    OwnsLess(n, table, owner, key, n, table[key]);
    CopiesApart(memory0, mem, own, memory, table[key]);
    ContentsChangeAtKey(n, table0, table, own, memory0, memory, key);
  }

  /** Contents and ownership after the copy of string `failAt` has failed; `start` was the entry before. */
  lemma FailedContents(n: nat, table0: map<nat, seq<nat>>, table: map<nat, seq<nat>>, memory0: map<nat, string>,
                       memory: map<nat, string>, owner: map<nat, Place>, key: nat, ptrs: seq<nat>, start: seq<nat>,
                       failAt: nat)
    requires |ptrs| == n && failAt < n && start == (if key in table0 then Nulls(n) else ptrs)
    requires table == table0[key := Nulls(failAt + 1) + start[failAt + 1..]]
    requires OwnsBut(n, table, owner, key, failAt + 1) && OwnsBut(n, table0[key := start], owner, key, 0)
    requires 0 !in memory0 && 0 !in memory && ValuesOf(memory, ptrs) == ValuesOf(memory0, ptrs)
    requires forall ptr | ptr in owner :: ptr in memory && ptr in memory0 && memory[ptr] == memory0[ptr]
    ensures var dict := ContentsOf(memory0, table0);
            ContentsOf(memory, table) == dict[key := Leftover(dict, key, ValuesOf(memory0, ptrs), failAt)]
    ensures Owns(n, table, owner) <==> key in table0 || LaterNull(ptrs, failAt)
    ensures table == table0[key := FailedEntry(key in table0, ptrs, failAt)]
  {
    assert forall i | failAt < i < n :: table[key][i] == start[i];
    OwnsNoneOf(n, table0[key := start], table, owner, key);
    ContentsChangeAtKey(n, table0, table, owner, memory0, memory, key);
    LeftoverValues(memory, ContentsOf(memory0, table0), key, ptrs, start, failAt);
    FailedEntryOwnership(n, table, owner, key, failAt + 1);
  }

  /** Tables that differ at an entry of which nothing is owned account for the others alike. */
  lemma OwnsNoneOf(n: nat, t: map<nat, seq<nat>>, u: map<nat, seq<nat>>, owner: map<nat, Place>, key: nat)
    requires OwnsBut(n, t, owner, key, 0) && key in u && u == t[key := u[key]] && |u[key]| == n
    ensures OwnsBut(n, u, owner, key, 0)
  {
    forall ptr | ptr in owner
      ensures Holding(n, u, owner[ptr], ptr)
    {
      assert Holding(n, t, owner[ptr], ptr);
    }
  }

  /** The copying of the strings of `src` into an entry: memory, owned strings and entry at its start. */
  datatype Copying = Copying(memory: map<nat, string>, owner: map<nat, Place>, src: seq<nat>, entry: seq<nat>) {
    ghost predicate Ready() {
      && |entry| == |src| && (entry == src || entry == Nulls(|src|)) && 0 !in memory
      && CallerStrings(src, memory, owner)
    }

    /** The first `i` strings have been copied: `mem`, `own` and `now` are memory, owned strings and entry. */
    ghost predicate Done(mem: map<nat, string>, own: map<nat, Place>, now: seq<nat>, i: nat) {
      && Ready() && i <= |src| == |now| && now[i..] == entry[i..]
      && (forall j | 0 <= j < i :: ValueOf(mem, now[j]) == ValueOf(memory, src[j]) && (src[j] == 0 ==> now[j] == 0))
      && mem - PtrSet(now[..i]) == memory && own - PtrSet(now[..i]) == owner
    }

    lemma Begin()
      requires Ready()
      ensures Done(memory, owner, entry, 0)
    {
      assert PtrSet(entry[..0]) == {};
    }

    lemma SourceLive(mem: map<nat, string>, own: map<nat, Place>, now: seq<nat>, i: nat)
      requires Done(mem, own, now, i) && i < |src| && src[i] != 0
      ensures src[i] in mem && mem[src[i]] == memory[src[i]]
    {
      assert src[i] in mem - PtrSet(now[..i]);
    }

    lemma Copy(mem: map<nat, string>, own: map<nat, Place>, now: seq<nat>, i: nat, copy: nat, place: Place)
      requires Done(mem, own, now, i) && i < |src| && src[i] != 0
      requires copy != 0 && copy !in mem && copy !in own && src[i] in mem && mem[src[i]] == memory[src[i]]
      ensures Done(mem[copy := mem[src[i]]], own[copy := place], With(now, i, copy), i + 1)
    {
      var m, o, e := mem[copy := mem[src[i]]], own[copy := place], With(now, i, copy);
      assert e[..i] == now[..i] && e[i + 1..] == now[i..][1..] == entry[i + 1..];
      PtrSetOneMore(m, e, i);
      PtrSetOneMore(o, e, i);
      assert m - PtrSet(e[..i]) - {copy} == memory;
      assert o - PtrSet(e[..i]) - {copy} == owner;
      forall j | 0 <= j < i
        ensures ValueOf(m, e[j]) == ValueOf(memory, src[j]) && (src[j] == 0 ==> e[j] == 0)
      {
        assert e[j] == now[j];
        assert src[j] != 0 ==> now[j] in mem;
      }
    }

    lemma Null(mem: map<nat, string>, own: map<nat, Place>, now: seq<nat>, i: nat)
      requires Done(mem, own, now, i) && i < |src| && src[i] == 0 && 0 !in mem && 0 !in own
      ensures now[i] == 0 && Done(mem, own, now, i + 1)
    {
      assert now[i] == now[i..][0] == entry[i];
      assert now[i + 1..] == now[i..][1..] == entry[i + 1..];
      PtrSetOneMore(mem, now, i);
      PtrSetOneMore(own, now, i);
      assert mem - PtrSet(now[..i]) - {0} == memory;
      assert own - PtrSet(now[..i]) - {0} == owner;
    }

    lemma End(mem: map<nat, string>, own: map<nat, Place>, now: seq<nat>)
      requires Done(mem, own, now, |src|)
      ensures ValuesOf(mem, now) == ValuesOf(memory, src)
      ensures mem - PtrSet(now) == memory && own - PtrSet(now) == owner
    {
      assert now[..|src|] == now;
    }
  }
}
