/** The method dictionary object (omr/OMR_MethodDictionary.cpp). */
module MethodDictionary {
  import opened DictionarySpec
  import opened Options
  import opened DictionaryAccount
  import opened NameBuffer
  import opened StringOwnership

  datatype Code = NoError | OutOfNativeMemory | RetryCode

  /** A description as the caller sees it: property pointers are positions in the name buffer. */
  datatype MethodDescription = MethodDescription(reason: Reason, properties: seq<Option<nat>>)

  /** `memcpy` into the name buffer. */
  method CopyText(nameBuffer: array<char>, at: nat, text: string)
    requires at + |text| <= nameBuffer.Length
    modifies nameBuffer
    ensures nameBuffer[..] == old(nameBuffer[..at]) + text + old(nameBuffer[at + |text|..])
  {
    forall j | 0 <= j < |text| {
      nameBuffer[at + j] := text[j];
    }
  }

  /** The first `i` strings of an entry have been copied into a buffer that held `before`. */
  predicate NamesCopied(buffer: string, before: string, vals: Values, pos: nat, i: nat, at: nat,
                        properties: seq<Option<nat>>) {
    && i <= |vals| && at == pos + NameBytes(vals[..i]) <= pos + NameBytes(vals) <= |before|
    && properties == Offsets(vals[..i], pos) && |PackEntry(vals[..i])| == at - pos
    && buffer == before[..pos] + PackEntry(vals[..i]) + before[at..]
  }

  lemma NamesCopiedNext(buffer: string, before: string, vals: Values, pos: nat, i: nat, at: nat,
                        properties: seq<Option<nat>>)
    requires NamesCopied(buffer, before, vals, pos, i, at, properties) && i < |vals|
    ensures vals[i].None? ==> NamesCopied(buffer, before, vals, pos, i + 1, at, properties + [None])
    ensures vals[i].Some? ==>
              var text := vals[i].value + [NUL];
              && at + |text| <= |buffer|
              && NamesCopied(buffer[..at] + text + buffer[at + |text|..], before, vals, pos, i + 1, at + |text|,
                             properties + [Some(at)])
  {
    PackOneMore(vals, i, pos);
    PackEntryLength(vals[..i + 1]);
    PrefixFits(vals, i + 1);
    if vals[i].Some? {
      SpliceText(before, pos, PackEntry(vals[..i]), at, vals[i].value + [NUL]);
    }
  }

  lemma SpliceText(before: string, pos: nat, done: string, at: nat, text: string)
    requires pos <= at == pos + |done| && at + |text| <= |before|
    ensures var now := before[..pos] + done + before[at..];
            && |now| == |before|
            && now[..at] + text + now[at + |text|..] == before[..pos] + (done + text) + before[at + |text|..]
  {
    var now := before[..pos] + done + before[at..];
    assert now[..at] == before[..pos] + done;
    assert now[at + |text|..] == before[at + |text|..];
  }

  /** How description `j` of the caller shows result `j` of a scan: pointers into the packed strings. */
  predicate ShownAt(shown: MethodDescription, before: MethodDescription, scan: seq<Description>, j: nat)
    requires j < |scan|
  {
    && shown.reason == scan[j].reason
    && shown.properties == (if scan[j].reason.Retrieved? then Offsets(scan[j].values, |PackAll(scan[..j])|)
                            else before.properties)
  }

  predicate Shows(descs: seq<MethodDescription>, before: seq<MethodDescription>, scan: seq<Description>) {
    && |scan| <= |descs| == |before|
    && (forall j {:trigger ShownAt(descs[j], before[j], scan, j)} | 0 <= j < |scan| ::
          ShownAt(descs[j], before[j], scan, j))
    && descs[|scan|..] == before[|scan|..]
  }

  lemma ShowsOneMore(descs: seq<MethodDescription>, before: seq<MethodDescription>, scan: seq<Description>,
                     d: Description, shown: MethodDescription)
    requires Shows(descs, before, scan) && |scan| < |descs|
    requires shown.reason == d.reason
    requires shown.properties == if d.reason.Retrieved? then Offsets(d.values, |PackAll(scan)|)
                                 else before[|scan|].properties
    ensures Shows(descs[|scan| := shown], before, scan + [d])
  {
    var longer, now := scan + [d], descs[|scan| := shown];
    forall j | 0 <= j < |longer|
      ensures ShownAt(now[j], before[j], longer, j)
    {
      if j < |scan| {
        assert longer[..j] == scan[..j];
        assert ShownAt(descs[j], before[j], scan, j);
      } else {
        assert longer[..j] == scan;
      }
    }
    assert now[|longer|..] == descs[|scan|..][1..] == before[|scan|..][1..];
  }

  /** The key and the property pointers. */
  function SizeOfEntry(numProperties: nat): nat {
    8 + numProperties * 8
  }

  class MethodDictionary {
    const numProperties: nat
    const sizeofEntry: nat
    var table: map<nat, seq<nat>>
    var memory: map<nat, string>
    var nextAddress: nat
    var currentBytes: int
    var maxBytes: int
    var maxEntries: nat
    /** The strings the dictionary owns and where; those it has ever allocated; those it has freed. */
    ghost var owner: map<nat, Place>
    ghost var everOwned: set<nat>
    ghost var freed: set<nat>
    /** The first address that the dictionary can be given. */
    ghost const firstAddress: nat

    /** Native memory is consistent: addresses are below the next one, owned strings are live. */
    ghost predicate MemoryOk()
      reads this`memory, this`nextAddress, this`owner, this`everOwned, this`freed
    {
      && 0 < firstAddress <= nextAddress
      && (forall ptr | ptr in memory :: 0 < ptr < nextAddress && NUL !in memory[ptr])
      && (forall ptr :: ptr in everOwned <==> firstAddress <= ptr < nextAddress)
      && (forall ptr | ptr in owner :: ptr in memory)
      && everOwned == owner.Keys + freed && owner.Keys !! freed
    }

    ghost predicate Valid()
      reads this`table, this`memory, this`nextAddress, this`owner, this`everOwned, this`freed
    {
      MemoryOk() && Owns(numProperties, table, owner)
    }

    /** The live strings of everyone else. */
    ghost function Others(): map<nat, string>
      reads this`memory, this`owner
    {
      OthersOf(memory, owner)
    }

    function Contents(): Dictionary
      reads this`table, this`memory
    {
      ContentsOf(memory, table)
    }

    function State(): Account
      reads this
    {
      Account(Contents(), currentBytes, maxBytes, maxEntries)
    }

    constructor (numProperties: nat, memory: map<nat, string>, nextAddress: nat)
      requires nextAddress >= 1
      requires forall ptr | ptr in memory :: 0 < ptr < nextAddress && NUL !in memory[ptr]
      ensures Valid() && Contents() == map[] && State() == Account(map[], 0, 0, 0)
      ensures this.memory == memory && this.nextAddress == nextAddress
      ensures this.numProperties == numProperties && sizeofEntry == SizeOfEntry(numProperties)
      ensures owner == map[] && everOwned == {} && freed == {} && firstAddress == nextAddress
    {
      this.numProperties := numProperties;
      sizeofEntry := SizeOfEntry(numProperties);
      table, owner, everOwned, freed := map[], map[], {}, {};
      this.memory, this.nextAddress, firstAddress := memory, nextAddress, nextAddress;
      currentBytes, maxBytes, maxEntries := 0, 0, 0;
    }

    /** `omrmem_allocate_memory` and the copy of the string. */
    method Duplicate(s: string, ghost place: Place) returns (copy: nat)
      requires MemoryOk() && NUL !in s
      modifies this`memory, this`nextAddress, this`owner, this`everOwned
      ensures MemoryOk() && copy == old(nextAddress) && copy !in old(memory) && copy !in old(owner)
      ensures memory == old(memory)[copy := s] && owner == old(owner)[copy := place]
      ensures nextAddress == old(nextAddress) + 1 && everOwned == old(everOwned) + {copy}
      ensures Others() == old(Others())
    {
      copy := nextAddress;
      nextAddress := nextAddress + 1;
      memory := memory[copy := s];
      owner, everOwned := owner[copy := place], everOwned + {copy};
    }

    /** `omrmem_free_memory`: NULL is ignored, anything else must be a live string of the dictionary. */
    method Free(ptr: nat)
      requires MemoryOk()
      requires ptr != 0 ==> ptr in owner
      requires 0 !in owner
      modifies this`memory, this`owner, this`freed
      ensures MemoryOk()
      ensures memory == (if ptr == 0 then old(memory) else old(memory) - {ptr})
      ensures owner == (if ptr == 0 then old(owner) else old(owner) - {ptr})
      ensures freed == (if ptr == 0 then old(freed) else old(freed) + {ptr})
      ensures Others() == old(Others())
    {
      if ptr != 0 {
        memory := memory - {ptr};
        owner, freed := owner - {ptr}, freed + {ptr};
      }
    }

    /** Frees the string at one place of the table and clears the pointer. */
    method ClearPlace(key: nat, i: nat, ghost except: nat, ghost lo: nat)
      requires MemoryOk() && OwnsBut(numProperties, table, owner, except, lo)
      requires key in table && i < numProperties && !(key == except && i >= lo)
      modifies this`table, this`memory, this`owner, this`freed
      ensures MemoryOk() && OwnsBut(numProperties, table, owner, except, lo)
      ensures table == old(table)[key := With(old(table)[key], i, 0)]
      ensures memory == old(memory) - {old(table)[key][i]}
      ensures owner == old(owner) - {old(table)[key][i]}
      ensures Others() == old(Others()) && old(freed) <= freed
    {
      ghost var ptr := table[key][i];
      ClearKeepsOwns(numProperties, table, owner, except, lo, key, i);
      Free(table[key][i]);
      table := table[key := With(table[key], i, 0)];
      assert ptr == 0 ==> old(memory) - {ptr} == old(memory) && old(owner) - {ptr} == old(owner);
    }

    /** Frees the first `count` strings of an entry. */
    method ClearPrefix(key: nat, count: nat, ghost except: nat, ghost lo: nat)
      requires MemoryOk() && OwnsBut(numProperties, table, owner, except, lo)
      requires key in table && count <= numProperties && (key == except ==> count <= lo)
      modifies this`table, this`memory, this`owner, this`freed
      ensures MemoryOk() && OwnsBut(numProperties, table, owner, except, lo)
      ensures table == old(table)[key := Nulls(count) + old(table)[key][count..]]
      ensures memory == old(memory) - PtrSet(old(table)[key][..count])
      ensures owner == old(owner) - PtrSet(old(table)[key][..count])
      ensures Others() == old(Others()) && old(freed) <= freed
    {
      ghost var entry := table[key];
      assert Nulls(0) + entry[0..] == entry;
      var i := 0;
      while i < count
        invariant i <= count
        invariant MemoryOk() && OwnsBut(numProperties, table, owner, except, lo)
        invariant table == old(table)[key := Nulls(i) + entry[i..]]
        invariant memory == old(memory) - PtrSet(entry[..i])
        invariant owner == old(owner) - PtrSet(entry[..i])
        invariant Others() == old(Others()) && old(freed) <= freed
      {
        PtrSetOneMore(old(memory), entry, i);
        PtrSetOneMore(old(owner), entry, i);
        ClearOneMore(old(table), key, entry, i);
        ClearPlace(key, i, except, lo);
        i := i + 1;
      }
    }

    method CleanupEntryStrings(key: nat)
      requires Valid() && key in table
      modifies this`table, this`memory, this`owner, this`freed
      ensures Valid()
      ensures table == old(table)[key := Nulls(numProperties)]
      ensures memory == old(memory) - PtrSet(old(table)[key])
      ensures owner == old(owner) - PtrSet(old(table)[key])
      ensures Others() == old(Others()) && old(freed) <= freed
    {
      ghost var entry := table[key];
      assert entry[..numProperties] == entry;
      OwnsButNothing(numProperties, table, owner, key);
      ClearPrefix(key, numProperties, 0, numProperties);
      assert Nulls(numProperties) + entry[numProperties..] == Nulls(numProperties);
    }

    /**
     Replaces the pointers of an entry by copies of the strings of `src`. The copy of string `failAt`, if
     given, is the first that cannot be allocated.
     */
    method DupEntryStrings(key: nat, src: seq<nat>, failAt: Option<nat>) returns (code: Code)
      requires MemoryOk() && key in table && OwnsBut(numProperties, table, owner, key, 0)
      requires |src| == numProperties && (table[key] == src || table[key] == Nulls(numProperties))
      requires CallerStrings(src, memory, owner)
      requires failAt.Some? ==> failAt.value < |src| && src[failAt.value] != 0
      modifies this`table, this`memory, this`nextAddress, this`owner, this`everOwned, this`freed
      ensures MemoryOk()
      ensures code == NoError <==> failAt.None?
      ensures code == NoError ==>
                && Owns(numProperties, table, owner)
                && key in table && table == old(table)[key := table[key]] && |table[key]| == |src|
                && ValuesOf(memory, table[key]) == ValuesOf(old(memory), src)
                && memory - PtrSet(table[key]) == old(memory) && owner - PtrSet(table[key]) == old(owner)
      ensures code != NoError ==>
                && code == OutOfNativeMemory
                && OwnsBut(numProperties, table, owner, key, failAt.value + 1)
                && table == old(table)[key := Nulls(failAt.value + 1) + old(table)[key][failAt.value + 1..]]
                && memory == old(memory) && owner == old(owner)
      ensures Others() == old(Others()) && old(everOwned) <= everOwned && old(freed) <= freed
    {
      ghost var c := Copying(memory, owner, src, table[key]);
      c.Begin();
      assert table == table[key := table[key]];
      var ok := CopyAll(key, src, failAt, c, old(table));
      if !ok {
        return OutOfNativeMemory;
      }
      c.End(memory, owner, table[key]);
      OwnsButNothing(numProperties, table, owner, key);
      code := NoError;
    }

    /** The copying loop. */
    method CopyAll(key: nat, src: seq<nat>, failAt: Option<nat>, ghost c: Copying, ghost start: map<nat, seq<nat>>)
      returns (ok: bool)
      requires MemoryOk() && |src| == numProperties && src == c.src && CopyState(key, c, start, 0)
      requires failAt.Some? ==> failAt.value < |src| && src[failAt.value] != 0
      modifies this`table, this`memory, this`nextAddress, this`owner, this`everOwned, this`freed
      ensures MemoryOk() && (ok <==> failAt.None?)
      ensures if ok then CopyState(key, c, start, numProperties) else CopyFailed(key, c, start, failAt.value + 1)
      ensures Others() == old(Others()) && old(everOwned) <= everOwned && old(freed) <= freed
    {
      var i := 0;
      while i < numProperties
        invariant 0 <= i <= numProperties && (failAt.Some? ==> i <= failAt.value)
        invariant MemoryOk() && CopyState(key, c, start, i)
        invariant Others() == old(Others()) && old(everOwned) <= everOwned && old(freed) <= freed
      {
        ok := DupOne(key, src, i, failAt, c, start);
        if !ok {
          return;
        }
        i := i + 1;
      }
      ok := true;
    }

    /** The first `i` strings have been copied. */
    ghost predicate CopyState(key: nat, c: Copying, start: map<nat, seq<nat>>, i: nat)
      reads this`table, this`memory, this`owner
    {
      && key in table && OwnsBut(numProperties, table, owner, key, i)
      && table == start[key := table[key]] && c.Done(memory, owner, table[key], i)
    }

    /** The copy of string `i - 1` failed and everything copied before has been released. */
    ghost predicate CopyFailed(key: nat, c: Copying, start: map<nat, seq<nat>>, i: nat)
      reads this`table, this`memory, this`owner
    {
      && i <= |c.entry| && OwnsBut(numProperties, table, owner, key, i)
      && table == start[key := Nulls(i) + c.entry[i..]] && memory == c.memory && owner == c.owner
    }

    /** One round of the copying loop. */
    method DupOne(key: nat, src: seq<nat>, i: nat, failAt: Option<nat>,
                  ghost c: Copying, ghost start: map<nat, seq<nat>>)
      returns (ok: bool)
      requires MemoryOk() && i < numProperties && |src| == numProperties && src == c.src
      requires failAt.Some? ==> failAt.value < |src| && src[failAt.value] != 0
      requires CopyState(key, c, start, i)
      modifies this`table, this`memory, this`nextAddress, this`owner, this`everOwned, this`freed
      ensures MemoryOk()
      ensures ok <==> failAt != Some(i)
      ensures ok ==> CopyState(key, c, start, i + 1)
      ensures !ok ==> CopyFailed(key, c, start, i + 1)
      ensures Others() == old(Others()) && old(everOwned) <= everOwned && old(freed) <= freed
    {
      ok := true;
      if src[i] == 0 {
        c.Null(memory, owner, table[key], i);
        NullKeepsOwns(numProperties, table, owner, key, i);
      } else if failAt == Some(i) {
        ReleaseCopies(key, i, c, start);
        ok := false;
      } else {
        CopyOne(key, src[i], i, c, start);
      }
    }

    /** Copies one string into the entry. */
    method CopyOne(key: nat, ptr: nat, i: nat, ghost c: Copying, ghost start: map<nat, seq<nat>>)
      requires MemoryOk() && i < numProperties == |c.src| && CopyState(key, c, start, i)
      requires ptr == c.src[i] && ptr != 0
      modifies this`table, this`memory, this`nextAddress, this`owner, this`everOwned
      ensures MemoryOk() && CopyState(key, c, start, i + 1)
      ensures Others() == old(Others()) && old(everOwned) <= everOwned
    {
      c.SourceLive(memory, owner, table[key], i);
      var copy := Duplicate(memory[ptr], Place(key, i));
      CopyKeepsOwns(numProperties, table, old(owner), key, i, copy);
      ghost var now := With(table[key], i, copy);
      c.Copy(old(memory), old(owner), table[key], i, copy, Place(key, i));
      assert c.Done(memory, owner, now, i + 1);
      SetTwice(start, key, table[key], now);
      table := table[key := With(table[key], i, copy)];
      assert table[key] == now;
    }

    /** The copy of string `i` could not be allocated: its pointer becomes NULL, earlier copies are released. */
    method ReleaseCopies(key: nat, i: nat, ghost c: Copying, ghost start: map<nat, seq<nat>>)
      requires MemoryOk() && i < numProperties == |c.src| && CopyState(key, c, start, i)
      modifies this`table, this`memory, this`owner, this`freed
      ensures MemoryOk() && CopyFailed(key, c, start, i + 1)
      ensures Others() == old(Others()) && old(freed) <= freed
    {
      ReleasedEntry(table[key], c.entry, i);
      UnaccountedPlace(numProperties, table, owner, key, i);
      table := table[key := With(table[key], i, 0)];
      ClearPrefix(key, i, key, i + 1);
    }

    /** Space the strings of an entry need. */
    method CountEntryNameBytesNeeded(ptrs: seq<nat>) returns (needed: nat)
      ensures needed == NameBytes(ValuesOf(memory, ptrs))
    {
      ghost var vals := ValuesOf(memory, ptrs);
      needed := 0;
      var i := 0;
      while i < |ptrs|
        invariant i <= |ptrs| && needed == NameBytes(vals[..i])
      {
        PackOneMore(vals, i, 0);
        if ptrs[i] in memory {
          needed := needed + |memory[ptrs[i]]| + 1;
        }
        i := i + 1;
      }
      assert vals[..i] == vals;
    }

    /**
     The entry of `key` is ready to receive copies; `table0`, `memory0` and `owner0` are as `insert` found
     them. The strings of the caller and of all other entries are still what they were.
     */
    ghost predicate Prepared(key: nat, ptrs: seq<nat>, table0: map<nat, seq<nat>>, memory0: map<nat, string>,
                             owner0: map<nat, Place>)
      reads this`table, this`memory, this`nextAddress, this`owner, this`everOwned, this`freed
    {
      && MemoryOk() && key in table && OwnsBut(numProperties, table, owner, key, 0)
      && |ptrs| == numProperties && CallerStrings(ptrs, memory0, owner0) && 0 !in memory0
      && table == table0[key := table[key]]
      && table[key] == (if key in table0 then Nulls(numProperties) else ptrs)
      && Others() == OthersOf(memory0, owner0)
      && (forall ptr | ptr in owner :: ptr in memory0 && memory[ptr] == memory0[ptr])
    }

    /** The first half of `insert`: add the entry to the table, clear it if it was there with other strings. */
    method PrepareEntry(key: nat, ptrs: seq<nat>) returns (reused: bool)
      requires Valid() && |ptrs| == numProperties && CallerStrings(ptrs, memory, owner)
      modifies this`table, this`memory, this`owner, this`freed
      ensures Prepared(key, ptrs, old(table), old(memory), old(owner)) && old(freed) <= freed
      ensures !reused <==> ChargesEntry(old(Contents()), key, ValuesOf(old(memory), ptrs))
    {
      PointersTellCharge(numProperties, table, owner, memory, key, ptrs);
      reused := false;
      if key !in table {
        EntryUnaccounted(numProperties, table, owner, key, ptrs);
        table := table[key := ptrs];
      } else if table[key] != ptrs {
        CleanupEntryStrings(key);
        reused := true;
        EntryUnaccounted(numProperties, table, owner, key, Nulls(numProperties));
        assert table[key := Nulls(numProperties)] == table;
      } else {
        EntryUnaccounted(numProperties, table, owner, key, Nulls(numProperties));
        assert table[key := Nulls(numProperties)] == table;
      }
    }

    /**
     `insert`. `addOk` says whether the hash table could take the entry, `failAt` which string copy, if
     any, is the first that cannot be allocated. On success the contents are updated at `key` with deep
     copies; on failure the entry is what `FailedInsert` says. Strings of others are never touched.
     */
    method InsertEntry(key: nat, ptrs: seq<nat>, addOk: bool, failAt: Option<nat>) returns (code: Code)
      requires Valid() && |ptrs| == numProperties && CallerStrings(ptrs, memory, owner)
      requires failAt.Some? ==> failAt.value < |ptrs| && ptrs[failAt.value] != 0
      modifies this
      ensures code == NoError <==> addOk && failAt.None?
      ensures !addOk ==> Valid() && State() == old(State()) && memory == old(memory)
      ensures addOk && failAt.None? ==>
                Valid() && State() == Insert(sizeofEntry, old(State()), key, ValuesOf(old(memory), ptrs))
      ensures addOk && failAt.Some? ==>
                && MemoryOk()
                && State() == FailedInsert(old(State()), key, ValuesOf(old(memory), ptrs), failAt.value)
                && (Valid() <==> key in old(table) || LaterNull(ptrs, failAt.value))
                && table == old(table)[key := FailedEntry(key in old(table), ptrs, failAt.value)]
      ensures Others() == old(Others()) && old(everOwned) <= everOwned && old(freed) <= freed
    {
      if !addOk {
        return OutOfNativeMemory;
      }
      var reused := PrepareEntry(key, ptrs);
      code := CopyStrings(key, ptrs, failAt, old(table), old(memory), old(owner));
      if code == NoError {
        Charge(key, reused, old(State()), ValuesOf(old(memory), ptrs));
      }
    }

    /** Accounts for an entry that has just been inserted. */
    method Charge(key: nat, reused: bool, ghost a: Account, ghost vals: Values)
      requires key in table && ValuesOf(memory, table[key]) == vals
      requires State() == a.(dict := a.dict[key := vals])
      requires !reused <==> ChargesEntry(a.dict, key, vals)
      modifies this`currentBytes, this`maxBytes, this`maxEntries
      ensures State() == Insert(sizeofEntry, a, key, vals)
    {
      ContentsSize(memory, table);
      var needed := CountEntryNameBytesNeeded(table[key]);
      currentBytes := currentBytes + (if reused then 0 else sizeofEntry) + needed;
      if currentBytes > maxBytes {
        maxBytes := currentBytes;
        maxEntries := |table|;
      }
    }

    /** The second half of `insert`, seen from the contents `table0`, `memory0`, `owner0` before it began. */
    method CopyStrings(key: nat, ptrs: seq<nat>, failAt: Option<nat>,
                       ghost table0: map<nat, seq<nat>>, ghost memory0: map<nat, string>, ghost owner0: map<nat, Place>)
      returns (code: Code)
      requires Prepared(key, ptrs, table0, memory0, owner0)
      requires failAt.Some? ==> failAt.value < |ptrs| && ptrs[failAt.value] != 0
      modifies this`table, this`memory, this`nextAddress, this`owner, this`everOwned, this`freed
      ensures MemoryOk() && key in table
      ensures code == NoError <==> failAt.None?
      ensures code == NoError ==> Owns(numProperties, table, owner)
      ensures code == NoError ==> Contents() == ContentsOf(memory0, table0)[key := ValuesOf(memory0, ptrs)]
      ensures code == NoError ==> ValuesOf(memory, table[key]) == ValuesOf(memory0, ptrs)
      ensures code != NoError ==>
                var dict := ContentsOf(memory0, table0);
                Contents() == dict[key := Leftover(dict, key, ValuesOf(memory0, ptrs), failAt.value)]
      ensures code != NoError ==>
                && (Owns(numProperties, table, owner) <==> key in table0 || LaterNull(ptrs, failAt.value))
                && table == table0[key := FailedEntry(key in table0, ptrs, failAt.value)]
      ensures Others() == old(Others()) && old(everOwned) <= everOwned && old(freed) <= freed
    {
      ghost var mem, own, start := memory, owner, table[key];
      CallerValuesStay(ptrs, memory0, owner0, memory, owner);
      code := DupEntryStrings(key, ptrs, failAt);
      if code == NoError {
        CopiedContents(numProperties, table0, table, memory0, mem, own, memory, owner, key, ptrs);
      } else {
        FailedContents(numProperties, table0, table, memory0, memory, owner, key, ptrs, start, failAt.value);
      }
    }

    /** Copies the strings of an entry into the name buffer from `pos` on and returns the property pointers. */
    method CopyEntryNameBytes(ptrs: seq<nat>, nameBuffer: array<char>, pos: nat) returns (properties: seq<Option<nat>>)
      requires pos + NameBytes(ValuesOf(memory, ptrs)) <= nameBuffer.Length
      modifies nameBuffer
      ensures
        var vals := ValuesOf(memory, ptrs);
        && properties == Offsets(vals, pos)
        && nameBuffer[..] == old(nameBuffer[..pos]) + PackEntry(vals) + old(nameBuffer[pos + NameBytes(vals)..])
    {
      ghost var vals := ValuesOf(memory, ptrs);
      ghost var before := nameBuffer[..];
      properties := [];
      var at: nat, i: nat := pos, 0;
      while i < |ptrs|
        invariant NamesCopied(nameBuffer[..], before, vals, pos, i, at, properties)
      {
        NamesCopiedNext(nameBuffer[..], before, vals, pos, i, at, properties);
        if ptrs[i] in memory {
          var text := memory[ptrs[i]] + [NUL];
          CopyText(nameBuffer, at, text);
          properties := properties + [Some(at)];
          at := at + |text|;
        } else {
          properties := properties + [None];
        }
        i := i + 1;
      }
      assert vals[..i] == vals;
    }

    /** A method that fits: its strings go to the buffer, its entry out of the dictionary. */
    method RetrieveEntry(key: nat, needed: nat, nameBuffer: array<char>, pos: nat)
      returns (properties: seq<Option<nat>>)
      requires Valid() && key in table && needed == NameBytes(ValuesOf(memory, table[key]))
      requires pos + needed <= nameBuffer.Length
      modifies this`table, this`memory, this`owner, this`freed, this`currentBytes, nameBuffer
      ensures Valid() && Contents() == old(Contents()) - {key}
      ensures currentBytes == old(currentBytes) - needed - sizeofEntry
      ensures
        var vals := old(ValuesOf(memory, table[key]));
        && properties == Offsets(vals, pos)
        && nameBuffer[..] == old(nameBuffer[..pos]) + PackEntry(vals) + old(nameBuffer[pos + needed..])
      ensures Others() == old(Others()) && old(freed) <= freed
    {
      properties := CopyEntryNameBytes(table[key], nameBuffer, pos);
      currentBytes := currentBytes - needed;
      RemoveEntry(key);
      currentBytes := currentBytes - sizeofEntry;
    }

    /** Frees the strings of an entry and removes it from the table. */
    method RemoveEntry(key: nat)
      requires Valid() && key in table
      modifies this`table, this`memory, this`owner, this`freed
      ensures Valid() && Contents() == old(Contents()) - {key} && table == old(table) - {key}
      ensures Others() == old(Others()) && old(freed) <= freed
    {
      RemoveContents(numProperties, table, owner, memory, key);
      CleanupEntryStrings(key);
      RemoveKeepsOwns(numProperties, table, owner, key);
      table := table - {key};
      assert table == old(table) - {key};
    }

    /**
     `cleanup`: whatever the dictionary has gone through, after it every string it has ever allocated has been
     freed (and `Free` accepts a string only once), and the strings of others are still there.
     */
    method Cleanup()
      requires Valid()
      modifies this`table, this`memory, this`owner, this`freed
      ensures Valid() && table == map[] && owner == map[] && freed == everOwned
      ensures memory == old(Others())
    {
      ClearAll();
      FreeTable();
    }

    /** Frees the strings of all entries. */
    method ClearAll()
      requires Valid()
      modifies this`table, this`memory, this`owner, this`freed
      ensures Valid() && Cleared(numProperties, table, {}) && Others() == old(Others())
    {
      var todo := table.Keys;
      while todo != {}
        invariant Valid() && todo <= table.Keys && Cleared(numProperties, table, todo) && Others() == old(Others())
        decreases |todo|
      {
        var key :| key in todo;
        ClearOne(key, todo);
        todo := todo - {key};
      }
    }

    method ClearOne(key: nat, ghost todo: set<nat>)
      requires Valid() && key in table && Cleared(numProperties, table, todo)
      modifies this`table, this`memory, this`owner, this`freed
      ensures Valid() && table.Keys == old(table.Keys) && Cleared(numProperties, table, todo - {key})
      ensures Others() == old(Others())
    {
      CleanupEntryStrings(key);
      ClearedNext(numProperties, old(table), table, todo, key);
    }

    /** Frees the hash table once all its entries have been cleared. */
    method FreeTable()
      requires Valid() && Cleared(numProperties, table, {})
      modifies this`table
      ensures Valid() && table == map[] && owner == map[] && freed == everOwned && memory == Others()
    {
      NothingOwned(numProperties, table, owner);
      assert memory - owner.Keys == memory;
      table := map[];
    }

    /** The loop of `getEntries` stands where the scan `t` stands; the strings of others are `others`. */
    ghost predicate InStep(t: Scan, others: map<nat, string>)
      reads this`table, this`currentBytes, this`memory, this`nextAddress, this`owner, this`everOwned, this`freed
    {
      Valid() && Contents() == t.dict && currentBytes == t.currentBytes && Others() == others
    }

    /** What `getEntries` does about one method, its description apart; `t` is the scan so far. */
    method LookUp(key: nat, available: nat, retrying: bool, nameBuffer: array<char>, pos: nat, ghost t: Scan)
      returns (reason: Reason, properties: seq<Option<nat>>, needed: nat)
      requires InStep(t, Others()) && available == t.available && retrying == t.retrying
      requires pos + available <= nameBuffer.Length
      modifies this`table, this`memory, this`owner, this`freed, this`currentBytes, nameBuffer
      ensures needed == Need(t.dict, key)
      ensures
        var u := ScanOne(sizeofEntry, t, key);
        var d := u.descs[|t.descs|];
        && InStep(u, old(Others())) && old(freed) <= freed && u.descs == t.descs + [d] && reason == d.reason
        && (reason.Retrieved? ==>
              && needed == NameBytes(d.values) && needed <= available && properties == Offsets(d.values, pos)
              && nameBuffer[..] == old(nameBuffer[..pos]) + PackEntry(d.values) + old(nameBuffer[pos + needed..]))
        && (!reason.Retrieved? ==> nameBuffer[..] == old(nameBuffer[..]))
    {
      properties, needed := [], 0;
      assert key in table <==> key in t.dict;
      if key !in table {
        reason := Unavailable;
      } else {
        needed := CountEntryNameBytesNeeded(table[key]);
        if retrying || needed > available {
          reason := Retry;
        } else {
          reason := Retrieved;
          properties := RetrieveEntry(key, needed, nameBuffer, pos);
        }
      }
    }

    /** One round of the loop of `getEntries`, from scan `t` to the next. */
    method GetOne(key: nat, i: nat, descs: array<MethodDescription>, nameBuffer: array<char>, pos: nat,
                  available: nat, retrying: bool,
                  ghost t: Scan, ghost before: seq<MethodDescription>, ghost text: string)
      returns (reason: Reason, needed: nat)
      requires InStep(t, Others()) && Shows(descs[..], before, t.descs) && Packed(nameBuffer[..], text, t.descs)
      requires i == |t.descs| < descs.Length && pos == |PackAll(t.descs)| && pos + available <= nameBuffer.Length
      requires available == t.available && retrying == t.retrying
      modifies this`table, this`memory, this`owner, this`freed, this`currentBytes, descs, nameBuffer
      ensures var u := ScanOne(sizeofEntry, t, key);
              && InStep(u, old(Others())) && old(freed) <= freed
              && Shows(descs[..], before, u.descs) && Packed(nameBuffer[..], text, u.descs)
              && |u.descs| == i + 1 && reason == u.descs[i].reason
              && |PackAll(u.descs)| == pos + (if reason.Retrieved? then needed else 0)
      ensures needed == Need(t.dict, key)
    {
      ghost var d := ScanOne(sizeofEntry, t, key).descs[i];
      ghost var now, was := descs[..], nameBuffer[..];
      var properties;
      reason, properties, needed := LookUp(key, available, retrying, nameBuffer, pos, t);
      PackedOneMore(was, nameBuffer[..], text, t.descs, d);
      var shown := MethodDescription(reason, if reason.Retrieved? then properties else descs[i].properties);
      assert descs[i] == now[i..][0] == before[i];
      ShowsOneMore(now, before, t.descs, d, shown);
      descs[i] := shown;
      assert descs[..] == now[i := shown];
    }

    /**
     `getEntries` is the scan of the specification: same descriptions, same dictionary, same counts. The
     retrieved strings are packed into the name buffer one after the other and the rest of the buffer
     keeps its text; descriptions of methods that were not retrieved keep their old property pointers.
     */
    method GetMethodEntries(keys: seq<nat>, descs: array<MethodDescription>, nameBuffer: array<char>, nameBytes: nat)
      returns (code: Code, firstRetry: Option<nat>, nameBytesRemaining: Option<nat>)
      requires Valid() && |keys| <= descs.Length && nameBytes <= nameBuffer.Length
      modifies this`table, this`memory, this`owner, this`freed, this`currentBytes, descs, nameBuffer
      ensures Valid() && Others() == old(Others()) && old(freed) <= freed
      ensures State() == GetEntries(sizeofEntry, old(State()), keys, nameBytes)
      ensures
        var t := ScanAll(sizeofEntry, Start(old(Contents()), old(currentBytes), nameBytes), keys);
        && code == (if t.retrying then RetryCode else NoError)
        && firstRetry == (if t.retrying then Some(t.firstRetry) else None)
        && nameBytesRemaining == (if t.retrying then Some(t.remaining) else None)
        && Shows(descs[..], old(descs[..]), t.descs)
        && Packed(nameBuffer[..], old(nameBuffer[..]), t.descs) && |PackAll(t.descs)| <= nameBytes
      ensures nameBuffer[nameBytes..] == old(nameBuffer[nameBytes..])
    {
      ghost var s, t := Start(Contents(), currentBytes, nameBytes), Start(Contents(), currentBytes, nameBytes);
      ghost var before, text := descs[..], nameBuffer[..];
      var available, pos, retrying, first, remaining := nameBytes, 0, false, 0, 0;
      var i := 0;
      while i < |keys|
        invariant 0 <= i <= |keys| && t == ScanAll(sizeofEntry, s, keys[..i]) && |t.descs| == i
        invariant InStep(t, old(Others())) && old(freed) <= freed
        invariant Locals(t, nameBytes, pos, available, retrying, first, remaining)
        invariant Shows(descs[..], before, t.descs) && Packed(nameBuffer[..], text, t.descs)
      {
        var reason, needed := GetOne(keys[i], i, descs, nameBuffer, pos, available, retrying, t, before, text);
        ScanNext(sizeofEntry, s, keys, i);
        LocalsNext(sizeofEntry, t, keys[i], nameBytes, pos, available, retrying, first, remaining, reason, needed);
        t := ScanOne(sizeofEntry, t, keys[i]);
        if reason.Retry? {
          if !retrying {
            retrying, first := true, i;
          }
          remaining := remaining + needed;
        } else if reason.Retrieved? {
          pos := pos + needed;
          available := available - needed;
        }
        i := i + 1;
      }
      assert keys[..i] == keys;
      PackedTail(nameBuffer[..], text, t.descs, nameBytes);
      code := if retrying then RetryCode else NoError;
      firstRetry := if retrying then Some(first) else None;
      nameBytesRemaining := if retrying then Some(remaining) else None;
    }

    /**
     Any lawful sequence of calls acts as its meaning on the account and keeps the ownership of strings. The
     strings of others stay, and nothing the dictionary has allocated or freed is forgotten.
     */
    method Serve(requests: seq<Request>)
      requires Valid() && LawfulAll(numProperties, sizeofEntry, Others(), State(), requests)
      modifies this
      ensures Valid() && Others() == old(Others()) && old(everOwned) <= everOwned && old(freed) <= freed
      ensures State() == AnswerAll(numProperties, sizeofEntry, old(Others()), old(State()), requests)
    {
      ghost var others, a := Others(), State();
      var i := 0;
      while i < |requests|
        invariant 0 <= i <= |requests|
        invariant Valid() && Others() == others && old(everOwned) <= everOwned && old(freed) <= freed
        invariant LawfulAll(numProperties, sizeofEntry, others, State(), requests[i..])
        invariant AnswerAll(numProperties, sizeofEntry, others, State(), requests[i..])
               == AnswerAll(numProperties, sizeofEntry, others, a, requests)
      {
        assert requests[i..][1..] == requests[i + 1..];
        ServeOne(requests[i]);
        i := i + 1;
      }
    }

    method ServeOne(request: Request)
      requires Valid() && Lawful(numProperties, Others(), Contents(), request)
      modifies this
      ensures Valid() && Others() == old(Others()) && old(everOwned) <= everOwned && old(freed) <= freed
      ensures State() == Answer(numProperties, sizeofEntry, old(Others()), old(State()), request)
    {
      match request {
        case Put(key, ptrs, addOk, failAt) =>
          CallerValuesOf(ptrs, memory, owner);
          var _ := InsertEntry(key, ptrs, addOk, failAt);
        case Take(keys, nameBytes) =>
          var descs := new MethodDescription[|keys|](_ => MethodDescription(Unavailable, []));
          var nameBuffer := new char[nameBytes];
          var _, _, _ := GetMethodEntries(keys, descs, nameBuffer, nameBytes);
      }
    }

    /**
     A failing input: the copy of the first of two strings fails on a new key, and the table keeps the
     caller's pointer to the second, which a clean-up would free.
     */
    static method KeepCallersPointer() returns (d: MethodDictionary)
      ensures fresh(d) && !d.Valid() && 5 in d.table && d.table[5] == [0, 2]
      ensures 2 in Pointers(d.table) && 2 !in d.owner && d.Others() == map[1 := "name", 2 := "file"]
    {
      d := new MethodDictionary(2, map[1 := "name", 2 := "file"], 3);
      assert d.Others() == map[1 := "name", 2 := "file"];
      var _ := d.InsertEntry(5, [1, 2], true, Some(0));
      assert d.table[5][1] == 2 && 2 in d.Others();
    }

    /**
     The whole life of a dictionary: created in some memory, used by any lawful sequence of calls, cleaned
     up. In the end every address it was ever given has been freed (and `Free` accepts a string only once),
     and memory is what it was in the beginning.
     */
    static method Live(numProperties: nat, memory: map<nat, string>, nextAddress: nat, requests: seq<Request>)
      returns (d: MethodDictionary)
      requires nextAddress >= 1
      requires forall ptr | ptr in memory :: 0 < ptr < nextAddress && NUL !in memory[ptr]
      requires LawfulAll(numProperties, SizeOfEntry(numProperties), memory, Account(map[], 0, 0, 0), requests)
      ensures fresh(d) && d.memory == memory && d.table == map[] && d.owner == map[]
      ensures d.freed == d.everOwned && forall ptr :: ptr in d.freed <==> nextAddress <= ptr < d.nextAddress
    {
      d := new MethodDictionary(numProperties, memory, nextAddress);
      assert d.Others() == memory;
      d.Serve(requests);
      d.Cleanup();
    }
  }

  // ---------------------------------------------------------------------------------------
  // Sequences of calls
  // ---------------------------------------------------------------------------------------

  /** A call of `insert`, with what the outside world decides, or of `getEntries`. */
  datatype Request =
    | Put(key: nat, ptrs: seq<nat>, addOk: bool, failAt: Option<nat>)
    | Take(keys: seq<nat>, nameBytes: nat)

  /**
   Inserted strings are live strings of others. A copy may fail, except where it would leave the caller's
   pointers in the table.
   */
  predicate Lawful(n: nat, others: map<nat, string>, dict: Dictionary, request: Request) {
    match request
    case Put(key, ptrs, addOk, failAt) =>
      && |ptrs| == n && (forall i | 0 <= i < n && ptrs[i] != 0 :: ptrs[i] in others)
      && (failAt.Some? ==>
            && failAt.value < n && ptrs[failAt.value] != 0
            && (addOk ==> key in dict || LaterNull(ptrs, failAt.value)))
    case Take(_, _) => true
  }

  /** The meaning of a call on the account. */
  function Answer(n: nat, size: nat, others: map<nat, string>, a: Account, request: Request): Account
    requires Lawful(n, others, a.dict, request)
  {
    match request
    case Put(key, ptrs, addOk, failAt) =>
      if !addOk then a
      else if failAt.None? then Insert(size, a, key, ValuesOf(others, ptrs))
      else FailedInsert(a, key, ValuesOf(others, ptrs), failAt.value)
    case Take(keys, nameBytes) => GetEntries(size, a, keys, nameBytes)
  }

  predicate LawfulAll(n: nat, size: nat, others: map<nat, string>, a: Account, requests: seq<Request>)
    decreases |requests|
  {
    requests == [] ||
    (Lawful(n, others, a.dict, requests[0]) &&
     LawfulAll(n, size, others, Answer(n, size, others, a, requests[0]), requests[1..]))
  }

  function AnswerAll(n: nat, size: nat, others: map<nat, string>, a: Account, requests: seq<Request>): Account
    requires LawfulAll(n, size, others, a, requests)
    decreases |requests|
  {
    if requests == [] then a
    else AnswerAll(n, size, others, Answer(n, size, others, a, requests[0]), requests[1..])
  }

  /** The local variables of `getEntries` are those of the scan `t`. */
  predicate Locals(t: Scan, nameBytes: nat, pos: nat, available: int, retrying: bool, first: nat, remaining: nat) {
    && pos == |PackAll(t.descs)| && pos + available == nameBytes
    && available == t.available && retrying == t.retrying && first == t.firstRetry && remaining == t.remaining
  }

  /** How one method moves the local variables on. */
  lemma LocalsNext(size: nat, t: Scan, key: nat, nameBytes: nat, pos: nat, available: int, retrying: bool,
                   first: nat, remaining: nat, reason: Reason, needed: nat)
    requires Locals(t, nameBytes, pos, available, retrying, first, remaining)
    requires needed == Need(t.dict, key)
    requires var u := ScanOne(size, t, key); |u.descs| == |t.descs| + 1 && reason == u.descs[|t.descs|].reason
    requires |PackAll(ScanOne(size, t, key).descs)| == pos + (if reason.Retrieved? then needed else 0)
    ensures
      var u := ScanOne(size, t, key);
      if reason.Retry? then
        Locals(u, nameBytes, pos, available, true, if retrying then first else |t.descs|, remaining + needed)
      else if reason.Retrieved? then Locals(u, nameBytes, pos + needed, available - needed, retrying, first, remaining)
      else Locals(u, nameBytes, pos, available, retrying, first, remaining)
  {
  }

  lemma {:induction false} PackAllPrefix(descs: seq<Description>, j: nat)
    requires j <= |descs|
    ensures |PackAll(descs[..j])| <= |PackAll(descs)|
    ensures PackAll(descs)[..|PackAll(descs[..j])|] == PackAll(descs[..j])
    decreases |descs|
  {
    if j < |descs| {
      var n := |descs| - 1;
      PackAllPrefix(descs[..n], j);
      assert descs[..n][..j] == descs[..j];
    } else {
      assert descs[..j] == descs;
    }
  }

  /** The slice of a retrieved method holds its packed strings and ends where the next one's starts. */
  lemma SliceOf(buffer: string, text: string, scan: seq<Description>, j: nat)
    requires Packed(buffer, text, scan) && j < |scan| && scan[j].reason.Retrieved?
    ensures var vals, pos := scan[j].values, |PackAll(scan[..j])|;
            && pos + NameBytes(vals) == |PackAll(scan[..j + 1])| <= |buffer|
            && Holds(buffer, pos, PackEntry(vals))
  {
    var vals, before, upTo := scan[j].values, PackAll(scan[..j]), PackAll(scan[..j + 1]);
    assert scan[..j + 1] == scan[..j] + [scan[j]];
    PackAllOneMore(scan[..j], scan[j]);
    PackAllPrefix(scan, j + 1);
    var rest := PackAll(scan)[|upTo|..] + text[|PackAll(scan)|..];
    assert buffer == upTo + rest;
    SliceInside(buffer, before, PackEntry(vals), rest);
  }

  lemma SliceInside(buffer: string, a: string, b: string, c: string)
    requires buffer == a + b + c
    ensures Holds(buffer, |a|, b)
  {
    assert buffer[|a|..|a| + |b|] == b;
  }

  /**
   The caller's view of a result: in the buffer that a retrieval leaves behind, the slice of every
   retrieved method lies directly behind those of the methods retrieved before it, and each of its
   property pointers is NULL for a missing property and otherwise reads back the stored string.
   */
  lemma DescriptionReadsBack(buffer: string, text: string, scan: seq<Description>,
                             shown: seq<MethodDescription>, before: seq<MethodDescription>, j: nat, i: nat)
    requires Packed(buffer, text, scan) && Shows(shown, before, scan)
    requires j < |scan| && scan[j].reason.Retrieved? && CStrings(scan[j].values) && i < |scan[j].values|
    ensures
      var vals, pos := scan[j].values, |PackAll(scan[..j])|;
      && pos + NameBytes(vals) == |PackAll(scan[..j + 1])| <= |buffer|
      && |shown[j].properties| == |vals|
      && (shown[j].properties[i].None? <==> vals[i].None?)
      && (vals[i].Some? ==>
            && pos <= shown[j].properties[i].value
            && shown[j].properties[i].value + |vals[i].value| < pos + NameBytes(vals)
            && CStringAt(buffer, shown[j].properties[i].value) == vals[i].value)
  {
    assert ShownAt(shown[j], before[j], scan, j);
    SliceOf(buffer, text, scan, j);
    ReadBack(buffer, |PackAll(scan[..j])|, scan[j].values, i);
  }

  lemma ScanNext(size: nat, s: Scan, keys: seq<nat>, i: nat)
    requires i < |keys|
    ensures ScanAll(size, s, keys[..i + 1]) == ScanOne(size, ScanAll(size, s, keys[..i]), keys[i])
  {
    ScanAppend(size, s, keys[..i], [keys[i]]);
    assert keys[..i + 1] == keys[..i] + [keys[i]];
    assert [keys[i]][1..] == [];
  }

  /** The buffer starts with the packed strings of the scan and continues with its old text. */
  predicate Packed(buffer: string, text: string, descs: seq<Description>) {
    |PackAll(descs)| <= |text| && buffer == PackAll(descs) + text[|PackAll(descs)|..]
  }

  lemma PackedTail(buffer: string, text: string, descs: seq<Description>, n: nat)
    requires Packed(buffer, text, descs) && |PackAll(descs)| <= n <= |text|
    ensures |buffer| == |text| && buffer[n..] == text[n..]
  {
  }

  /** From buffer `was` to buffer `now` the description `d` is added to those packed. */
  lemma PackedOneMore(was: string, now: string, text: string, descs: seq<Description>, d: Description)
    requires Packed(was, text, descs)
    requires
      var p, need := |PackAll(descs)|, NameBytes(d.values);
      if d.reason.Retrieved? then p + need <= |text| && now == was[..p] + PackEntry(d.values) + was[p + need..]
      else now == was
    ensures Packed(now, text, descs + [d])
    ensures |PackAll(descs + [d])| == |PackAll(descs)| + (if d.reason.Retrieved? then NameBytes(d.values) else 0)
  {
    PackAllOneMore(descs, d);
    if d.reason.Retrieved? {
      SpliceAfter(was, PackAll(descs), PackEntry(d.values), text);
    }
  }

  /** A text written behind `front` leaves the rest of the buffer. */
  lemma SpliceAfter(was: string, front: string, more: string, text: string)
    requires |front| + |more| <= |text| && was == front + text[|front|..]
    ensures was[..|front|] + more + was[|front| + |more|..] == front + more + text[|front + more|..]
  {
    assert was[..|front|] == front;
    assert was[|front| + |more|..] == text[|front| + |more|..];
  }

  lemma PackAllOneMore(descs: seq<Description>, d: Description)
    ensures PackAll(descs + [d]) == PackAll(descs) + (if d.reason.Retrieved? then PackEntry(d.values) else [])
    ensures |PackEntry(d.values)| == NameBytes(d.values)
  {
    assert (descs + [d])[..|descs|] == descs;
    PackEntryLength(d.values);
  }

  lemma PrefixFits(vals: Values, i: nat)
    requires i <= |vals|
    ensures NameBytes(vals[..i]) <= NameBytes(vals)
  {
    assert vals == vals[..i] + vals[i..];
    PackEntryAppend(vals[..i], vals[i..]);
    PackEntryLength(vals);
    PackEntryLength(vals[..i]);
  }
}
