# Verified models of the OMR core

Dafny models of the stateful parts of the OMR runtime core, with the properties that hold over all of
their inputs and runs. `dafny verify dfyconfig.toml` checks the whole project.

| files | component |
|---|---|
| `MachineInts`, `Options` | wrap-around of 64-bit integers and optional values, used by the others |
| `CpuLoad`, `CpuLoadQuery` | CPU-load queries of the tooling interface: interval arithmetic, load, the state machine over oldest record, interim record, negative-elapsed counter and status |
| `CategoryForest`, `CategoryBuffer`, `CategoryWalk`, `CategoryReport`, `CategoryTotals` | memory-category report: the walk, the slot numbering, the recording callback, the linking pass that borrows a counter as tail pointer, the recursive totals |
| `DictionarySpec`, `DictionaryAccount`, `NameBuffer`, `StringOwnership`, `MethodDictionary` | method dictionary: insert with deep copies, destructive retrieval into a limited buffer, byte accounting, ownership of strings |
| `CasLoops` | read/compare-and-swap loops on a shared cell, any number of threads |
| `CircularList`, `ThreadRegistry`, `RuntimeRegistry` | circular list macros and the thread and VM registries built on them, with the sweep after a fork |
| `SelfRelative`, `AvlTree`, `AvlWiring`, `AvlRelocation`, `AvlInPlace` | tagged self-relative pointers, the AVL tree on values, and the same tree in place on nodes linked by such pointers, also when it is moved |

Code that updates state in place is modelled by classes and methods with the source's branches; each
method is proved equal to a function on values (`Step`, `Perform`, `Insert`, `ScanAll`, `Apply`, ...), and the
results over runs are proved about that function.

What the outside world decides is a parameter: the samples of the port library (`Sample`), whether a
native thread could be attached or a monitor entered, whether the hash table took an entry, which string allocation fails,
the walk of the categories as a list of visits, the values other threads leave in a cell, and the
operating system thread that survives a fork. Pointers to buffer elements are slot numbers plus one,
addresses are numbers, and freed memory is gone from the map that models memory, so every access proves
that its target is live. `double` is `real` with infinities and NaN, without rounding.

Where code and comments disagree, the model follows the code:

- The negative-elapsed counter is described as counting consecutive calls, but a call that succeeds
  against the interim record does not reset it (`CounterRestarts`, `CounterNotConsecutive`). The oldest
  record is replaced on the fourth such call.
- The process load compares user times only; it is negative when total CPU time falls (`ProcessLoadRange`,
  `ProcessLoadCanBeNegative`).
- The report's documentation names OMR_ERROR_OUT_OF_MEMORY; the code returns
  OMR_ERROR_OUT_OF_NATIVE_MEMORY.
- Without language categories the 64-bit walk visits the unused allocate32 regions twice
  (`DefaultWalkCountsTwice`); reports are therefore proved for walks with repeated codes too.
- A failed string copy on a new key leaves an uncharged entry (`FailedInsertCovered`) that keeps the
  caller's later pointers, which a clean-up would free (`FailedEntryOwnership`, `CleanupFreesOwn`,
  `KeepCallersPointer`); inserting an all-NULL entry again charges its size again (`InsertSlack`).
- A refused attach still sets the thread-local slot and raises the attach count
  (`AttachKeepsTieUnlessRefused`, `RefusedThreadLooksAttached`), so that a detach of the thread counts it
  off although it was not counted. The counters are unsigned: over any run each is the number of listed
  threads less such misses, modulo 2^64 (`RunDrifts`). With language threads listed a miss makes room for one
  thread more than the maximum (`LiftLimit`); with none listed the counter wraps to 2^64 - 1 and every later
  language thread is refused (`LockOut`, `LockedOut`). Both need a thread whose old links still lead to
  elements in memory, as those of a thread that was once alone on the list do; a refused thread that was
  never linked is outside the model, since the detach follows links that were never set.

## Model

| member | source | states |
|---|---|---|
| `CpuLoad.IntervalModular` | omr/OMR_TI.cpp:242-255 | the interval is `d` if and only if end is start + d modulo 2^64, for every int64 `d`, so it survives a wrap of the timer |
| `CpuLoad.IntervalExact` | omr/OMR_TI.cpp:242-255 | for non-negative stamps the interval is the plain difference |
| `CpuLoad.SystemMeterRegular` | omr/OMR_TI.cpp:349-367 | which of its four outcomes the system calculation has is decided by the difference of the stamps and the comparison of CPU times, in both directions |
| `CpuLoad.ProcessMeterRegular` | omr/OMR_TI.cpp:376-401 | the same for the process calculation |
| `CpuLoad.SystemLoadRange` | omr/OMR_TI.cpp:349-367 | the load is in [0,1] if and only if no CPU time passed or the int64 product of CPUs and interval is not negative |
| `CpuLoad.SystemLoadValue` | omr/OMR_TI.cpp:349-367 | load times capacity is the busy time, capped at 1, where capacity is the int64 product of CPUs and interval, of any sign; without capacity the load is 1 |
| `CpuLoad.ProcessLoadValue` | omr/OMR_TI.cpp:376-401 | the same for system and user time together, negative busy time included; a sum that leaves int64 counts as load 1 |
| `CpuLoad.OverflowTestExact` | omr/OMR_TI.cpp:388-393 | the wrapped-sum test fires exactly when the sum leaves int64 |
| `CpuLoad.ProcessLoadRange` | omr/OMR_TI.cpp:376-401 | with a CPU and no overflow of the product, the load is in [0,1] if and only if total CPU time did not fall |
| `CpuLoad.ProcessLoadCanBeNegative` | omr/OMR_TI.cpp:376-401 | an input for which the reported load is -5 |
| `CpuLoadQuery.StepKeepsInvariant` | omr/OMR_TI.cpp:418-473 | every call keeps counter in 0..3, stamps non-negative, oldest < interim + 1 ms; interim never decreases; history is never forgotten |
| `CpuLoadQuery.RunKeepsInvariant` | omr/OMR_TI.cpp:418-473 | the invariant holds in every reachable state |
| `CpuLoadQuery.InterimNeverDecreases` | omr/OMR_TI.cpp:434-445 | over every run the interim stamp never decreases, however the clock moves |
| `CpuLoadQuery.ReplacedInterimNeverNegative` | omr/OMR_TI.cpp:440-468 | a call that replaced the interim record cannot reach the negative-elapsed branch |
| `CpuLoadQuery.ErrorStatusAbsorbs` | omr/OMR_TI.cpp:418-473 | an error status freezes the state and makes every later call NOT_AVAILABLE |
| `CpuLoadQuery.RecordsWereSampled` | omr/OMR_TI.cpp:418-473 | in every run both stored records are records some call of the run sampled |
| `CpuLoadQuery.ReplyMeaning` | omr/OMR_TI.cpp:434-469 | the return code, in both directions, from which stored records qualify; the output is written if and only if the code is NONE, and from which record |
| `CpuLoadQuery.WrittenIffNone` | omr/OMR_TI.cpp:418-473 | for every status and every answer of the port library, a load is written if and only if the code is NONE; NOT_AVAILABLE if and only if the status is an error or the library refuses |
| `CpuLoadQuery.LoadsAreBetweenSamples` | omr/OMR_TI.cpp:404-477 | over every run, each load written is the load between the sample of that call and that of an earlier call |
| `CpuLoadQuery.SystemLoadsInRange` | omr/OMR_TI.cpp:404-477 | every load written by a run of system queries is in [0,1], if no product over a pair of its samples overflows |
| `CpuLoadQuery.ProcessLoadsInRange` | omr/OMR_TI.cpp:480-553 | the same for process queries, if total CPU time never falls as well |
| `CpuLoadQuery.RecordsAfterCall` | omr/OMR_TI.cpp:434-469 | from stamps and CPU times alone: when the sample becomes the interim record, when the oldest record is kept, replaced by the interim record or by the sample, and the new counter |
| `CpuLoadQuery.FirstCall` | omr/OMR_TI.cpp:427-432 | the first sample of a run becomes both records and the caller is told to retry |
| `CpuLoadQuery.RefusalIsFinal` | omr/OMR_TI.cpp:418-473 | over every run, once the port library has refused a call its status is remembered: every later call answers NOT_AVAILABLE and leaves the records and the counter as that call found them |
| `CpuLoadQuery.CounterRestarts` | omr/OMR_TI.cpp:434-469 | a call that did not go back leaves the counter at 0 unless it succeeded on the interim record with a nonzero counter, if and only if |
| `CpuLoadQuery.CounterNotConsecutive` | omr/OMR_TI.cpp:459-468 | a run with successes in between in which the counter still adds up |
| `CpuLoadQuery.BoundedRecovery` | omr/OMR_TI.cpp:434-469 | from every state of the invariant one of the next five spaced calls returns NONE |
| `CpuLoadQuery.ReachableRecovery` | omr/OMR_TI.cpp:404-477 | the same after any history from the initial state, however far the clock jumped back |
| `CpuLoadQuery.RecoveryBoundTight` | omr/OMR_TI.cpp:459-468 | five is the best bound: after a far enough jump exactly four calls are refused |
| `CpuLoadQuery.SysInfo.constructor` | omr/startup/omrrasinit.c:190-210 | both queries start without history and with counter 0 |
| `CpuLoadQuery.SysInfo.GetSystemCpuLoad` | omr/OMR_TI.cpp:418-473 | the system query is the abstract step on its own records and leaves the process records alone |
| `CpuLoadQuery.OmrtiGetSystemCpuLoad` | omr/OMR_TI.cpp:403-477 | the whole call: a missing thread, argument or `OMR_SysInfo` and a failing monitor are refused in that order, without effect; any other call takes the step |
| `CpuLoadQuery.SysInfo.GetProcessCpuLoad` | omr/OMR_TI.cpp:494-549 | the process query is the same abstract step on its records and leaves the system records alone |
| `CpuLoadQuery.OmrtiGetProcessCpuLoad` | omr/OMR_TI.cpp:479-553 | the whole call, with the same refusals |
| `CategoryForest.SubtreeUnfolds` | omr/OMR_TI.cpp:674-696 | the sum over a subtree is the node's own value plus the subtree sums of its children |
| `CategoryForest.RootsCoverEverything` | omr/OMR_TI.cpp:788-795 | the subtree sums of the roots add up to the sum over all slots |
| `CategoryBuffer.ChainListsChildren` | omr/OMR_TI.cpp:651-672 | in a linked buffer the sibling chain from firstChild ends and is the list of the slot's children in buffer order |
| `CategoryBuffer.ChainMembers` | omr/OMR_TI.cpp:651-672 | a slot is on the chain of its own parent and no other; no chain visits a slot twice |
| `CategoryBuffer.FillInChildAndSiblingCategories` | omr/OMR_TI.cpp:651-672 | the in-place pass sets exactly the links the parents demand and leaves the tail slot in the borrowed counter |
| `CategoryBuffer.FillInCategoryDeepCounters` | omr/OMR_TI.cpp:674-696 | the in-place recursion ends; whatever the counters held, every slot of the subtree gets its own subtree's totals, the parent is raised by those of the root, nothing else changes |
| `CategoryBuffer.FillInChildren` | omr/OMR_TI.cpp:682-689 | the loop along the sibling links handles each child once |
| `CategoryBuffer.PassBackToParent` | omr/OMR_TI.cpp:691-695 | the final addition to the parent completes the recursion |
| `CategoryBuffer.FillInDeepCounters` | omr/OMR_TI.cpp:788-795 | the loop over the roots leaves in every slot the totals of its subtree as int64 values |
| `CategoryWalk.WalkIsIterate` | port/common/omrmemcategories.c:162-230 | the recursive walk calls back on exactly the parent-first visit list, in order, until the callback stops it |
| `CategoryWalk.RegisteredAcyclic` | port/common/omrmemcategories.c:124-199 | a walk that ends, with children looked up by code, never meets a category below itself |
| `CategoryWalk.WalkVisitsParentsFirst` | port/common/omrmemcategories.c:162-199 | then every non-root names a parent other than itself that was visited earlier, even if codes repeat |
| `CategoryWalk.CalculateMappingSize` | omr/OMR_TI.cpp:631-649 | the sizing walk finds the largest language code and OMR index |
| `CategoryWalk.MaximaAttained` | omr/OMR_TI.cpp:631-649 | the two maxima behind the mapping size are codes of the walk, unless there is none of the kind |
| `CategoryWalk.MappingSizeBound` | omr/OMR_TI.cpp:762 | the mapping size fits in 32 bits for every walk |
| `CategoryWalk.IndexInjective` | omr/OMR_TI.cpp:568-574 | for walked codes other than 0x7FFFFFFF the slot is in range and two codes share it if and only if they are equal |
| `CategoryWalk.ExcludedCodeIndex` | omr/OMR_TI.cpp:568-574 | when the excluded code would be in range, if and only if |
| `CategoryReport.WrittenClosedUnderParents` | omr/OMR_TI.cpp:579-614 | the written prefix is closed under parents: a non-root's parent slot is earlier and has the parent's code |
| `CategoryReport.ParentLookup` | omr/OMR_TI.cpp:590-604 | the mapping leads a non-root to the latest earlier slot of its parent although its own code has just been entered |
| `CategoryReport.WalkState.Record` | omr/OMR_TI.cpp:579-614 | the callback records the next visit, or sets overflow and stops the walk if and only if the buffer is full |
| `CategoryReport.LinkAndSum` | omr/OMR_TI.cpp:785-795 | both passes turn the recorded slots into the complete report and touch nothing behind them |
| `CategoryReport.WriteCategories` | omr/OMR_TI.cpp:757-802 | the written count is the minimum of walk and limit, overflow if and only if the walk is longer (negative limit as 0), the rest of the buffer is zeroed |
| `CategoryReport.GetMemoryCategories` | omr/OMR_TI.cpp:698-826 | each return code in both directions, the outputs written, and the report in the buffer, for every walk with parents first |
| `CategoryTotals.RootTotalsCoverReport` | omr/OMR_TI.cpp:785-795 | in every report, complete or cut off, the roots' deep counters add up to the shallow counters of all slots written |
| `CategoryTotals.RootTotalsAreForestTotal` | omr/OMR_TI.cpp:785-795 | for every forest, whatever codes repeat, the deep counters of the report's roots add up to the total over the forest |
| `CategoryTotals.ReportChains` | omr/OMR_TI.cpp:651-672 | in every report the child chain of a slot ends and lists exactly the slots whose parent it is, once each, in buffer order |
| `CategoryTotals.ReportHoldsTreeTotals` | omr/OMR_TI.cpp:674-696 | end to end: each category's slot holds the total of that category's own tree, for every forest in which no category contains itself |
| `CategoryTotals.ReportShowsForest` | omr/OMR_TI.cpp:579-614 | the report shows every category of the forest once, in order, with its own name, bytes and allocations below the slot of its own parent |
| `CategoryTotals.DefaultWalkCountsTwice` | port/common/omrmemcategories.c:208-230 | the deep counters of the roots of the default report exceed the sum over the three categories by the unused regions |
| `CategoryTotals.DefaultWalkFits` | port/common/omrmemcategories.c:208-230 | the default walk meets what the report needs although it repeats a code |
| `DictionarySpec.ScanIsRetrieveAll` | omr/OMR_MethodDictionary.cpp:211-257 | without a flip to RETRY mode the scan is retrieval without a limit, repeated keys included |
| `DictionarySpec.RetryingStays` | omr/OMR_MethodDictionary.cpp:221-224 | in RETRY mode nothing is removed, and the needed bytes of every present position are counted |
| `DictionarySpec.FlipPoint` | omr/OMR_MethodDictionary.cpp:248-254 | the flip happens at the first method that does not fit |
| `DictionarySpec.EnoughSpace` | omr/OMR_MethodDictionary.cpp:211-257 | a buffer as large as the counted need never runs out, though repeated keys were counted twice |
| `DictionarySpec.ResumableRetrieval` | omr/OMR_MethodDictionary.cpp:191-271 | after RETRY, the second call from firstRetryMethod with nameBytesRemaining bytes succeeds, that number is exactly the need of the methods from there on, and both calls together give the results and dictionary of one unlimited call |
| `DictionarySpec.BufferUse` | omr/OMR_MethodDictionary.cpp:226-231 | name bytes of retrieved methods plus what is left is constant, so they total at most nameBytes |
| `DictionarySpec.RetrievedLeave` | omr/OMR_MethodDictionary.cpp:233-246 | exactly the keys reported as retrieved leave the dictionary; all others keep their values |
| `DictionaryAccount.ScanKeepsSlack` | omr/OMR_MethodDictionary.cpp:236-246 | retrieval gives back exactly what the retrieved entries occupy |
| `DictionaryAccount.InsertSlack` | omr/OMR_MethodDictionary.cpp:154-170 | the charge beyond the live entries grows by exactly what an overwritten entry occupied, or by the entry size for an all-NULL overwrite |
| `DictionaryAccount.ChargeCoversLive` | omr/OMR_MethodDictionary.cpp:147-176 | in every run of inserts and retrievals the charge is at least the bytes of the live entries |
| `DictionaryAccount.ChargeCoversLiveDuringScan` | omr/OMR_MethodDictionary.cpp:236-246 | the same before each method inside a retrieval, so no subtraction wraps |
| `DictionaryAccount.ChargeExact` | omr/OMR_MethodDictionary.cpp:147-176 | the charge is exact while no present key is inserted again |
| `DictionaryAccount.InsertedIsPresent` | omr/OMR_MethodDictionary.cpp:140-189 | an insert makes its key present with its strings and leaves every other entry alone |
| `DictionaryAccount.EntryIsLastInserted` | omr/OMR_MethodDictionary.cpp:140-271 | over every run a present entry holds the strings of the last insert of its key and has been present since |
| `DictionaryAccount.RetrievedIsLastInserted` | omr/OMR_MethodDictionary.cpp:191-271 | anywhere in a run, asking for a present key that fits returns the strings last inserted under it |
| `DictionaryAccount.MaximumIsHighest` | omr/OMR_MethodDictionary.cpp:171-174 | the maximum is the highest charge so far, and its entry count that of the moment when it was first reached |
| `DictionaryAccount.FailedInsertCovered` | omr/OMR_MethodDictionary.cpp:353-363 | after a failed copy the charge still covers the live entries if and only if the key was present or earlier overwrites left enough to spare |
| `NameBuffer.ReadBack` | omr/OMR_MethodDictionary.cpp:285-298 | in a buffer holding a packed entry every non-NULL property pointer is inside its slice and reads back the stored string |
| `NameBuffer.PackEntryLength` | omr/OMR_MethodDictionary.cpp:273-283 | a packed entry takes exactly the bytes that were counted |
| `StringOwnership.PointersTellCharge` | omr/OMR_MethodDictionary.cpp:374-387 | comparing string pointers tells a new entry from a present one, all-NULL entries excepted |
| `StringOwnership.FailedEntryOwnership` | omr/OMR_MethodDictionary.cpp:353-363 | after a failed copy the dictionary owns exactly what its table holds if and only if the entry is NULL behind the failing string |
| `StringOwnership.CleanupFreesOwn` | omr/OMR_MethodDictionary.cpp:328-339 | then, and only then, cleaning up frees exactly the dictionary's own strings |
| `MethodDictionary.MethodDictionary.CleanupEntryStrings` | omr/OMR_MethodDictionary.cpp:328-339 | frees each string of the entry once, sets its pointers to NULL, touches no other string |
| `MethodDictionary.MethodDictionary.DupEntryStrings` | omr/OMR_MethodDictionary.cpp:341-367 | all strings copied into fresh memory, or at the failing one every earlier copy released |
| `MethodDictionary.MethodDictionary.CountEntryNameBytesNeeded` | omr/OMR_MethodDictionary.cpp:273-283 | the bytes of the entry's strings with terminators |
| `MethodDictionary.MethodDictionary.CopyEntryNameBytes` | omr/OMR_MethodDictionary.cpp:285-298 | writes the packed strings at the position, keeps the rest of the buffer, returns the pointers |
| `MethodDictionary.MethodDictionary.PrepareEntry` | omr/OMR_MethodDictionary.cpp:147-161 | adds the entry or clears the old strings; reports reuse exactly when the entry size is not charged |
| `MethodDictionary.MethodDictionary.Charge` | omr/OMR_MethodDictionary.cpp:165-175 | the accounting of a successful insert |
| `MethodDictionary.MethodDictionary.InsertEntry` | omr/OMR_MethodDictionary.cpp:140-189 | a map update by key with deep copies on success; on a failed copy the exact leftover, with ownership intact if and only if the key was present or no later string was given; nothing when the table is full; the strings of others stay and no allocated string is forgotten |
| `MethodDictionary.MethodDictionary.RemoveEntry` | omr/OMR_MethodDictionary.cpp:237-238 | removes the entry and frees its strings, keeping the ownership invariant |
| `MethodDictionary.MethodDictionary.GetMethodEntries` | omr/OMR_MethodDictionary.cpp:191-271 | the loop over methods is the specified scan: same codes, counts, dictionary and charge, names packed within the first nameBytes of the buffer and nothing written behind them, other descriptions untouched; what leaves the dictionary is freed and the strings of others stay |
| `MethodDictionary.MethodDictionary.Cleanup` | omr/OMR_MethodDictionary.cpp:110-131 | afterwards the strings freed are exactly those ever allocated by the dictionary, and memory is the strings of others |
| `MethodDictionary.MethodDictionary.Serve` | omr/OMR_MethodDictionary.cpp:140-271 | every sequence of inserts and retrievals, harmless failures included, acts as its meaning on the account and keeps ownership; the account is that of the source while the charge covers the live entries |
| `MethodDictionary.MethodDictionary.Live` | omr/OMR_MethodDictionary.cpp:72-271 | a whole life from creation to clean-up: every address ever handed out has been freed, each once, and memory is as in the beginning |
| `MethodDictionary.MethodDictionary.KeepCallersPointer` | omr/OMR_MethodDictionary.cpp:353-363 | a failing input after which the table holds a string of the caller |
| `MethodDictionary.DescriptionReadsBack` | omr/OMR_MethodDictionary.cpp:211-265 | the caller's view: slices of retrieved methods are adjacent and each property pointer reads back its string |
| `CasLoops.BitwiseOperations` | include_core/AtomicSupport.hpp:615-675 | the arithmetic definitions of and/or are the operations bit by bit |
| `CasLoops.Linearizable` | include_core/AtomicSupport.hpp:591-907 | at every moment of every interleaving, the order of successful compare-and-swaps replays to the value of the cell and to every returned value, and respects real time |
| `CasLoops.ReturnsOwnEffect` | include_core/AtomicSupport.hpp:591-907 | in every interleaving each entry adds, subtracts, masks or sets the cell as the entries before it left it, and each call returns the cell right after its own entry (add, subtract) or right before it (bitAnd, bitOr, set) |
| `CasLoops.EffectExactlyOnce` | include_core/AtomicSupport.hpp:591-907 | distinct calls own distinct entries of that order, and it has no others |
| `CasLoops.CellStaysWithinWord` | include_core/AtomicSupport.hpp:591-907 | the cell stays a w-bit value |
| `CasLoops.NoLostUpdates` | include_core/AtomicSupport.hpp:591-857 | with adds and subtracts only, the cell is the start value plus all addends modulo 2^w |
| `CasLoops.FailuresBounded` | include_core/AtomicSupport.hpp:591-907 | N threads with S successes have at most (N-1)*S failed attempts, at every moment |
| `CasLoops.FailureHasCause` | include_core/AtomicSupport.hpp:591-907 | an attempt fails only if another thread changed the cell between its read and its compare-and-swap |
| `CasLoops.Cell.CompareExchange` | include_core/AtomicSupport.hpp:470-478 | returns the value found and stores only if it was the expected one |
| `CasLoops.Cell.RetryLoop` | include_core/AtomicSupport.hpp:591-603 | under given interference the loop ends, its one update has the effect of the operation on the value read by the first attempt that found the cell unchanged, and it returns the value after (add, subtract) or before (the others) |
| `CircularList.LinksInverse` | include_core/omrlinkedlist.h:28-103 | next and previous are mutually inverse on the circle |
| `CircularList.InsertKeepsCircle` | include_core/omrlinkedlist.h:28-63 | the four link assignments of an insertion, at any position, give the circle of the longer sequence |
| `CircularList.DeleteKeepsCircle` | include_core/omrlinkedlist.h:65-76 | the two link assignments of a removal give the circle of the shorter sequence |
| `CircularList.RemoveOffList` | include_core/omrlinkedlist.h:65-76 | removing an element that is off the list keeps the circle if and only if its old links would assign nothing new to listed neighbours |
| `CircularList.ApplyPlaces` | include_core/omrlinkedlist.h:30-89 | each addition keeps the order of the others and places the element directly after or before the given one, first or last; each removal takes exactly that element out |
| `CircularList.LinkedList.AddAfter` | include_core/omrlinkedlist.h:28-33 | insertion behind an element, circle kept |
| `CircularList.LinkedList.AddBefore` | include_core/omrlinkedlist.h:35-43 | insertion before an element, the root moving when it is the root |
| `CircularList.LinkedList.AddFirst` | include_core/omrlinkedlist.h:45-52 | prepend |
| `CircularList.LinkedList.AddLast` | include_core/omrlinkedlist.h:54-63 | append |
| `CircularList.LinkedList.Remove` | include_core/omrlinkedlist.h:65-76 | deletion of an element, the last one included; an element off the list with harmless links leaves the list as it is; the links of the removed element are harmless afterwards |
| `CircularList.LinkedList.RemoveFirst` | include_core/omrlinkedlist.h:78-88 | takes the first element |
| `CircularList.LinkedList.Walk` | include_core/omrlinkedlist.h:93-97 | forward iteration visits every element once, in order, and stops |
| `CircularList.LinkedList.ReverseWalk` | include_core/omrlinkedlist.h:99-103 | reverse iteration visits every element once, backwards, and stops |
| `CircularList.LinkedList.Execute` | include_core/omrlinkedlist.h:28-88 | every legal sequence of macros keeps the circle and refines the sequence operations |
| `ThreadRegistry.CallKeepsCounts` | omr/OMR_VM.cpp:86-129 | attach and detach keep both counters equal to the listed threads of their kind, and the limit |
| `ThreadRegistry.RunKeepsCounts` | omr/OMR_VM.cpp:86-129 | the same over every run of accepted or refused attaches and detaches |
| `ThreadRegistry.AttachKeepsTieUnlessRefused` | omr/OMR_VMThread.cpp:81-100 | a counted attach keeps "positive count if and only if listed" exactly when it is not a refused first attach |
| `ThreadRegistry.DetachKeepsTie` | omr/OMR_VMThread.cpp:102-123 | a counted detach keeps that tie and never meets an unlisted thread |
| `ThreadRegistry.CountedCallAnswers` | omr/OMR_VMThread.cpp:81-123 | the return code of a counted attach or detach, in both directions |
| `ThreadRegistry.CountedCallLists` | omr/OMR_VMThread.cpp:81-123 | only the first accepted attach of a thread enters the list, only its last detach leaves it, and no other thread is affected |
| `ThreadRegistry.AttachCountBalances` | omr/OMR_VMThread.cpp:81-123 | over every run of counted calls the attach count of a thread is the number of its attaches that found a native thread less the number of its detaches that answered NONE |
| `ThreadRegistry.LeavesAtZero` | omr/OMR_VMThread.cpp:102-123 | in such a run a listed thread leaves the list exactly when that number reaches 0 |
| `ThreadRegistry.SlotsFollow` | omr/OMR_VM.cpp:105-125 | an attach, accepted or refused, puts the thread into the slot of its operating system thread, a detach empties that slot, and no other slot changes |
| `ThreadRegistry.SlotHoldsLast` | omr/OMR_VMThread.cpp:34-45 | over every run of counted calls a slot holds what the last first attach or last detach on its operating system thread left |
| `ThreadRegistry.RefusedThreadLooksAttached` | omr/OMR_VMThread.cpp:92-94 | a refused thread whose attach count says attached |
| `ThreadRegistry.RunDrifts` | omr/OMR_VM.cpp:86-129 | over every run that detaches unlisted threads too, each counter is the number of listed threads of its kind less the misses so far, modulo 2^64, and the limit is exceeded by the misses at most |
| `ThreadRegistry.LimitDrifts` | omr/OMR_VM.cpp:94 | anywhere in such a run a language thread is refused if and only if listed less missed, modulo 2^64, has reached the maximum; short of 2^64 misses that is when fewer are listed than were missed, or as many as the maximum and the misses together |
| `ThreadRegistry.UnlistedDetachMiscounts` | omr/OMR_VM.cpp:111-129 | a detach keeps the counts right if and only if the thread is listed; otherwise the counter of its kind ends one too low, or at 2^64 - 1 if no thread of the kind is listed |
| `ThreadRegistry.RefusedDetachLiftsLimit` | omr/OMR_VM.cpp:86-129 | after the detach of an unlisted language thread under a nonzero maximum the next one is accepted if and only if some language thread is listed; at the maximum it is one too many |
| `ThreadRegistry.LockedOut` | omr/OMR_VM.cpp:86-129 | once the counter has wrapped to 2^64 - 1, every language thread is refused throughout every run of attaches and detaches of listed threads |
| `ThreadRegistry.FirstAttachLastDetach` | omr/OMR_VMThread.cpp:126-173 | a first attach fails if and only if memory or a monitor is lacking, then without effect; otherwise it is never refused, is an internal thread with count 1 in the slot of its operating system thread, and the last detach undoes it |
| `ThreadRegistry.OnThreadSplits` | omr/OMR_VM.cpp:195-216 | the surviving thread and the freed ones make up the whole list, in list order |
| `ThreadRegistry.LanguageThreadsAt` | omr/OMR_VM.cpp:195-216 | each freed thread hands back its own language thread |
| `ThreadRegistry.SweepLeaksNothing` | omr/OMR_VM.cpp:195-228 | the sweep leaves no live thread off the list if and only if one thread alone runs on self |
| `ThreadRegistry.VM.NewThread` | omr/OMR_VMThread.cpp:47-58 | a caller allocates a thread structure: list and right counts stay |
| `ThreadRegistry.VM.Attach` | omr/OMR_VM.cpp:86-109 | attachThread on the linked list, counts kept |
| `ThreadRegistry.VM.Detach` | omr/OMR_VM.cpp:111-129 | detachThread on the linked list, of a listed thread or of one off the list with harmless links; right counts stay right if and only if it was listed; the links it keeps are harmless |
| `ThreadRegistry.VM.AttachCounted` | omr/OMR_VMThread.cpp:81-100 | counted attach: only the first enters the list |
| `ThreadRegistry.VM.DetachCounted` | omr/OMR_VMThread.cpp:102-123 | counted detach: only the last leaves the list; right counts stay right if and only if it was not that of an unlisted thread |
| `ThreadRegistry.VM.RefuseDetached` | omr/OMR_VM.cpp:86-129 | with a maximum of one, a thread that was attached before and is refused now keeps links to itself, which no attach or detach of others changes |
| `ThreadRegistry.VM.LiftLimit` | omr/OMR_VM.cpp:86-129 | its detach makes room for a second thread |
| `ThreadRegistry.VM.LockOut` | omr/OMR_VM.cpp:86-129 | after the other thread has left, its detach wraps the counter: the list is empty and every language thread refused |
| `ThreadRegistry.VM.SweepOthers` | omr/OMR_VM.cpp:195-216 | the walk ends, frees exactly the threads not on self, each once, without reading a link of a freed one |
| `ThreadRegistry.VM.PostForkChild` | omr/OMR_VM.cpp:170-240 | afterwards the list is the surviving thread alone with matching counts, if and only if some listed thread runs on self |
| `RuntimeRegistry.CallKeepsCounts` | omr/OMR_Runtime.cpp:32-102 | each call keeps the VM count equal to the list length, within the limit, and the mutex tied to the initialized flag |
| `RuntimeRegistry.RunKeepsCounts` | omr/OMR_Runtime.cpp:32-102 | the same over every run |
| `RuntimeRegistry.AttachAnywhere` | omr/OMR_Runtime.cpp:76-92 | anywhere in a run an attach answers NONE if and only if there is no maximum or fewer VMs are listed, and then appends that VM; otherwise it changes nothing |
| `RuntimeRegistry.DetachAnywhere` | omr/OMR_Runtime.cpp:94-102 | anywhere in a run a detach takes that VM off the list and no other |
| `RuntimeRegistry.InitializeAnywhere` | omr/OMR_Runtime.cpp:32-50 | the return code of an initialization in both directions, and what it changes |
| `RuntimeRegistry.DestroyOnlyWhenEmpty` | omr/OMR_Runtime.cpp:52-74 | anywhere in a run, the mutex is destroyed if and only if the runtime was initialized, the thread attached and no VM listed |
| `RuntimeRegistry.OmrRuntime.InitializeRuntime` | omr/OMR_Runtime.cpp:32-50 | initialization with its two failures, also of a runtime that is initialized already |
| `RuntimeRegistry.OmrRuntime.Attach` | omr/OMR_Runtime.cpp:76-92 | attachVM on the linked list |
| `RuntimeRegistry.OmrRuntime.Detach` | omr/OMR_Runtime.cpp:94-102 | detachVM on the linked list |
| `RuntimeRegistry.OmrRuntime.DestroyRuntime` | omr/OMR_Runtime.cpp:52-74 | omr_destroy_runtime |
| `SelfRelative.AssignKeepsOther` | include_core/omravldefines.h:41-53 | each assignment sets its own part of the field and keeps the other |
| `SelfRelative.LastAssignmentWins` | include_core/omravldefines.h:33-53 | over any run of assignments the node and the balance read are those last assigned |
| `SelfRelative.SelfLinkLost` | include_core/omravldefines.h:44-52 | a link reads back its target if and only if the target is not the field itself |
| `SelfRelative.MoveKeepsLink` | include_core/omravldefines.h:44-53 | a field after any run of assignments, read at its moved address: the link has moved along, NULL stays NULL, the balance is kept |
| `SelfRelative.MoveKeepsLinks` | include_core/omravldefines.h:44-53 | the same for every field of a block that is moved as a whole |
| `AvlRelocation.TreeMoves` | include_core/omravldefines.h:33-53 | a tree stored at some places is stored, with the same keys, shape and balances, at the moved places when every link leads to the moved target |
| `SelfRelative.SrpRoundTrip` | include_core/omrsrp.h:36-45 | a 32-bit link reads back its target if and only if it is NULL, or within range and not the field itself |
| `SelfRelative.TaggedLink.SetNode` | include_core/omravldefines.h:44 | assigns the link and keeps the balance |
| `SelfRelative.TaggedLink.SetTag` | include_core/omravldefines.h:42 | assigns the balance and keeps the link |
| `AvlTree.RebalanceRestores` | util/avl/avlsup.c:281-344 | after a subtree grew or shrank by one, rebalancing restores the AVL property and the tags, keeps the key order and reports the exact height change |
| `AvlTree.SingleRotateRight` | util/avl/avlsup.c:133-185 | the single rotation to the right does so |
| `AvlTree.SingleRotateLeft` | util/avl/avlsup.c:133-185 | the single rotation to the left does so |
| `AvlTree.DoubleRotateRight` | util/avl/avlsup.c:198-269 | the double rotation to the right does so |
| `AvlTree.DoubleRotateLeft` | util/avl/avlsup.c:198-269 | the double rotation to the left does so |
| `AvlTree.InsertNode` | util/avl/avlsup.c:361-419 | insertion keeps the AVL property, reports its height change, and changes nothing for a present key |
| `AvlTree.InsertKeys` | util/avl/avlsup.c:361-419 | keys stay sorted and are the old ones plus the new; added if and only if it was absent |
| `AvlTree.TakeRightMostKeys` | util/avl/avlsup.c:89-120 | the greatest key is taken out and the others keep their order |
| `AvlTree.DeleteNode` | util/avl/avlsup.c:467-553 | deletion keeps the AVL property and reports its height change |
| `AvlTree.DeleteKeys` | util/avl/avlsup.c:467-553 | keys stay sorted and are the old ones without the deleted; found if and only if it was present |
| `AvlTree.HeightIsLogarithmic` | util/avl/avlsup.c:361-553 | a tree of height h has at least 2^(h/2) - 1 nodes |
| `AvlTree.TreeIsKeySet` | util/avl/avlsup.c:42-64 | after any sequence of insertions and deletions the tree is an AVL tree with exactly the keys inserted and not deleted since |
| `AvlWiring.RotateStored` | util/avl/avlsup.c:133-185 | the link and balance assignments of a single rotation leave the rotated tree in the fields and change no field outside the tree |
| `AvlWiring.DoubleRotateStored` | util/avl/avlsup.c:198-269 | the same for a double rotation |
| `AvlInPlace.AvlArena.WriteLink` | include_core/omravldefines.h:39-44 | writing a link through a self-relative field or the root pointer changes that link and no tag |
| `AvlInPlace.AvlArena.WriteTag` | include_core/omravldefines.h:42 | writing a balance changes that tag and no link |
| `AvlInPlace.AvlArena.RotateNodes` | util/avl/avlsup.c:133-185 | `rotate` in place leaves in memory the tree that the rotation on values computes |
| `AvlInPlace.AvlArena.DoubleRotateNodes` | util/avl/avlsup.c:198-269 | `doubleRotate` in place, likewise |
| `AvlInPlace.AvlArena.RebalanceSlot` | util/avl/avlsup.c:281-344 | `rebalance` through a child field or the root pointer: the slot leads to the rebalanced tree and keeps its own tag |
| `AvlInPlace.AvlArena.InsertSlot` | util/avl/avlsup.c:361-419 | `insertNode` in place computes the insertion on values, returns the node under the key, and writes nothing if the key was there |
| `AvlInPlace.AvlArena.TakeRightMostSlot` | util/avl/avlsup.c:89-120 | `findRightMostLeaf` in place takes the greatest node out and clears its links |
| `AvlInPlace.AvlArena.DeleteSlot` | util/avl/avlsup.c:467-553 | `deleteNode` in place computes the deletion on values; the removed node ends without links and balanced; nothing is written if the key is absent |
| `AvlInPlace.AvlArena.AvlInsert` | util/avl/avlsup.c:42-48 | insertion into the whole tree: all other nodes stay where they are, linked or free |
| `AvlInPlace.AvlArena.AvlDelete` | util/avl/avlsup.c:58-64 | deletion from the whole tree: the removed node is ready to be inserted again |
| `AvlInPlace.AvlArena.AvlSearch` | util/avl/avlsup.c:430-452 | search returns the node with the key, or NULL if there is none, in at most as many steps as the tree is high |
| `AvlInPlace.AvlArena.Relocate` | include_core/omravldefines.h:33-53 | a pool of nodes copied as a block to another address, child fields unchanged and root pointer adjusted, holds the same tree with every node at its moved place, ready for further operations |
| `AvlInPlace.AvlArena.Execute` | util/avl/avlsup.c:42-64 | after any sequence of insertions and deletions memory holds an AVL tree whose nodes are exactly those inserted and not deleted since |

## Left out

- AvlInPlace.AvlArena.InsertSlot: the action hooks, a NULL node argument and the trace points are not modelled; the comparator is an order of integer keys.
- AvlInPlace.AvlArena.DeleteSlot: as for insertion.
- AvlTree.InsertNode: on values; `AvlInPlace.AvlArena.InsertSlot` has the update in place and the identity of nodes.
- AvlTree.DeleteNode: on values; `AvlInPlace.AvlArena.DeleteSlot` has the update in place and the identity of nodes.
- CasLoops.Cell.RetryLoop: what other threads do is given as values at the compare-and-swap and at the next read; arbitrary interleavings are covered by `CasLoops.Linearizable`.
- MethodDictionary.MethodDictionary.GetMethodEntries: a hash table that refuses to remove an entry it has just found (OMR_ERROR_INTERNAL) and a lock that cannot be entered are not modelled.
- MethodDictionary.MethodDictionary.InsertEntry: addresses are never reused, so a new copy never has an old address; byte counts are unbounded integers; a lock that cannot be entered is not modelled.
- MethodDictionary.MethodDictionary.Cleanup: starts from a dictionary that owns what its table holds; `InsertEntry` says exactly which failed insert ends elsewhere.
- CategoryReport.GetMemoryCategories: the walk is a list of visits given to the call, without the code 0x7FFFFFFF, for which `CategoryWalk.ExcludedCodeIndex` says when its slot exists; the counters do not change between the three walks, and counts are unbounded integers.
- CategoryTotals.ReportHoldsTreeTotals: a category below itself is excluded; the walk of such a table does not end (`CategoryWalk.RegisteredAcyclic`).
- RuntimeRegistry.OmrRuntime.InitializeRuntime: a second initialization replaces the mutex; that the first one is lost is not modelled.
- MethodDictionary.MethodDictionary.Serve: the account holds while the charge covers the live entries, which only a failed insert can end (`DictionaryAccount.FailedInsertCovered`); below that the unsigned byte count of the source wraps and that of the model turns negative.
- AvlInPlace.AvlArena.Relocate: the links of the block lead to nodes of the block, and no node falls on NULL or across the end of memory.
- CpuLoadQuery.SystemLoadsInRange: the condition on the samples is sufficient; `CpuLoad.SystemLoadRange` has the exact one for a pair.
- CpuLoadQuery.ProcessLoadsInRange: likewise, with `CpuLoad.ProcessLoadRange`.
- ThreadRegistry.RunDrifts: detaches of unlisted threads are those with harmless links, as for `ThreadRegistry.VM.Detach`.
- ThreadRegistry.VM.AttachCounted: attach counts are unbounded integers.
- ThreadRegistry.VM.Detach: the detach of a thread off the list whose links are not harmless, or that was never linked, is not modelled; it writes to freed or listed nodes.
- ThreadRegistry.VM.DetachCounted: as for `ThreadRegistry.VM.Detach`.
- ThreadRegistry.VM.PostForkChild: locks, agent callbacks, trace handlers and GC clean-up around the sweep are not modelled; the pre-fork and parent handlers only take and release them.
- SelfRelative.SrpRoundTrip: 64-bit addresses only.
- The hash table inside the method dictionary is a map; monitors are mutual exclusion.
- `addDouble`, `getU64`, memory barriers and the per-platform compare-and-swap of AtomicSupport.hpp.
- The linear list macros of omrlinkedlist.h, which would add easy members only.
- Trace forwarding, printing and formatting, the agent life cycle, the profiler and memory-size wrappers.
- The port library, threads library, GC, JIT and compiler.
- Rounding of floating-point arithmetic.
