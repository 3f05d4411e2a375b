# Verified models of Carbon's common data structures and protocols

Dafny models of five parts of Carbon's `common/` directory, with proofs of what those parts promise:

- **The hash table** behind `Map` (`common/raw_hashtable.h`, `common/raw_hashtable_metadata_group.h`,
  `common/map.h`): one metadata byte per slot, groups of 8 or 16 slots, quadratic probing over groups,
  tombstones only in full groups, a growth budget, and a doubling that moves most entries without rehashing them.
  `MapBase` is a class over two arrays; every method is proved to keep one invariant and to act on a plain finite map.
  The hash function, the group width and the two "trivial" entry properties are arbitrary.
- **`DirRef::Rmtree`** (`common/filesystem.cpp`): iterative removal of a directory tree with one shared entry list and a stack of offsets.
- **The command-line parser** (`common/command_line.cpp`): options, positional arguments, `--` suffixes and nested subcommands.
- **`Latch`** (`common/latch.cpp`, `common/latch.h`): a reference count and a closure, over all interleavings of atomic steps.
- **Hashing** (`common/hashing.h`, `common/hashing.cpp`): which bytes are read, where codes cannot collide, and that what is read enters the code.

## How it is laid out

| file | content |
|---|---|
| `Options.dfy` | the type of optional values |
| `Bits.dfy`, `Probe.dfy` | bytes and bit operations as arithmetic; triangular numbers and strides modulo a power of two; the probe sequence |
| `MetadataGroup.dfy` | the 64-bit portable group operations and what they mean byte by byte |
| `TableLayout.dfy` | the invariant of a table as a value (`Table.Ok`), and how insertion and erasure keep it |
| `TableGrowth.dfy` | the doubling as a function of the old table, and the bookkeeping of its loops |
| `RawHashtable.dfy` | the table itself: lookup, insertion, erasure, both ways to grow, copy, move |
| `HashtableRuns.dfy`, `TableBudget.dfy`, `TableIteration.dfy`, `TableMetrics.dfy` | whole runs; the growth budget; iteration; the metrics |
| `Filesystem.dfy`, `Latch.dfy`, `Hashing.dfy` | the other three parts |
| `CommandLine.dfy`, `Parsing.dfy` | one parse as a function, and the builder and parser objects tied to it |
| `CommandLineResults.dfy`, `RequiredArguments.dfy` | what a success delivers; which positional arguments it was given |
| `CommandLineRuns.dfy`, `CommandLineOutcomes.dfy` | which names are accepted, spellings that mean the same; which outcome a parse has, which token is refused with which error, and what every argument holds |

A table is reasoned about as the value `Abs()` of type `Table` (bytes, entries, owner of each slot, slot of each key, map).
`Sound` is the type of tables that satisfy the invariant. The invariant says that owners and keys are in bijection,
that a present byte carries the low seven hash bits of its owner, that no group before a key's own on its probe path has an empty slot,
that the bytes in use stay within the threshold, and that every key's entry holds its value.

## Where the code and its documentation differ

- The growth budget is documented as kept above zero (`common/raw_hashtable.h:117-120`), but the code grows only when an insertion
  finds it at zero (`common/raw_hashtable.h:1330`). `TableBudget.BudgetIsConserved` gives the exact value, and
  `TableBudget.FillToThreshold` reaches zero for any hash function.
- `Latch::Init` checks only that the count is zero (`common/latch.cpp:55`). A release that has decremented to zero but not yet taken
  the closure passes that check. `Latch.InitIsSafeIff`: such an `Init` follows the contract exactly when no release is deciding, and
  exactly then can the closure of the cycle before ever be taken out. `Latch.InitWhileDeciding` follows the other case to the end: the
  stored closure is lost for good and the new one is taken out while its handle is held. `Latch.InitTooEarly` reaches such a state.
  The documented contract, to wait until the latch is satisfied, suffices (`Latch.SafeInitRuns`, `Latch.EveryRun`), also for an `Init`
  inside the running closure.
- A code is documented to incorporate the seed (`common/hashing.h:78`), but the code of a string of one to three bytes does not
  (`common/hashing.h:960-967`): `Hashing.ShortSeeds` says that of the short strings exactly the empty one has a code that depends on it,
  and `Hashing.EqualCodesMeet` that two seeds give a longer string one code only where a step gives one result for different inputs.
- `Rmtree` asks for a path that names a directory (`common/filesystem.h:964-968`), but succeeds for a path that does not exist.
- Names are documented as made of `[-a-zA-Z0-9]` (`common/command_line.h:93-95`). The code also allows `_`, and demands at least two
  characters and no dash at the end (`common/command_line.cpp:1365-1383`): `CommandLineRuns.AcceptedNames` says exactly which names
  are accepted, and `CommandLineRuns.AcceptedNameExamples` gives `a_b` and `x`.

A success of the command line does not give every required positional argument: a `--` directly after another skips one, as documented
(`common/command_line.h:162-164`). `RequiredArguments.RequiredGivenIff` says exactly which were given,
`RequiredArguments.RequiredGivenWithoutDoubleMark` what a caller can see on the command line,
and `RequiredArguments.RequiredCanBeSkipped` shows a required argument that is skipped.

## Model

| member | source | states |
|---|---|---|
| Probe.TriangleClosed | common/raw_hashtable.h:921-928 | twice the j-th triangular number is j squared plus j, the formula the probe is documented by |
| Probe.GroupAtClosed | common/raw_hashtable.h:946-952 | the incremental probe position equals the closed quadratic formula |
| Probe.ProbeDistinct | common/raw_hashtable.h:953-955 | the first as many probe positions as there are groups are pairwise distinct, for any start and any power of two |
| Probe.ProbeCovers | common/raw_hashtable.h:953-955 | those positions cover every group |
| Probe.ProbeMaskMeaning | common/raw_hashtable.h:903-910 | masking any start with the probe mask gives the first slot of its group modulo the number of groups |
| Probe.ProbeSequence.constructor | common/raw_hashtable.h:931-938 | the sequence starts at step zero, at the group of the start index |
| Probe.ProbeSequence.Next | common/raw_hashtable.h:940-957 | one step follows the closed formula, stays aligned and in range, and both debug checks hold |
| Probe.StrideDistinct | common/raw_hashtable.h:1206-1214 | a walk with an odd stride never repeats a group within one round |
| Probe.StrideCovers | common/raw_hashtable.h:1206-1214 | such a walk visits every group |
| MetadataGroup.QueryIsExact | common/raw_hashtable_metadata_group.h:808-981 | each portable match sets the high bit of exactly the bytes that match, without carry or borrow into a neighbour, and no other bit |
| MetadataGroup.ClearDeletedIsExact | common/raw_hashtable_metadata_group.h:793-806 | clearing tombstones zeroes exactly the tombstone bytes |
| MetadataGroup.BroadcastDoesNotCarry | common/raw_hashtable_metadata_group.h:861-866 | broadcasting a tag by multiply and add equals multiply and or, so the debug check on the carry holds |
| MetadataGroup.QueryShows | common/raw_hashtable_metadata_group.h:808-981 | the bits of a match on a word show exactly the matching positions of its bytes |
| MetadataGroup.FirstIndexIsNextMatch | common/raw_hashtable_metadata_group.h:144-168 | counting leading zeros of the swapped bits gives the first matching byte |
| MetadataGroup.AdvanceShows | common/raw_hashtable_metadata_group.h:213-227 | clearing the lowest set bit drops exactly the first match |
| MetadataGroup.MatchIterator.constructor | common/raw_hashtable_metadata_group.h:188-193 | a new iterator shows all matches of the query |
| MetadataGroup.MatchIterator.Index | common/raw_hashtable_metadata_group.h:199-206 | dereferencing gives the first match still to come |
| MetadataGroup.MatchIterator.Advance | common/raw_hashtable_metadata_group.h:213-227 | incrementing leaves the matches after the current one |
| MetadataGroup.CollectMatches | common/raw_hashtable_metadata_group.h:188-232 | iterating over the bits yields exactly the matching positions in increasing order |
| MetadataGroup.MatchListIsExact | common/raw_hashtable_metadata_group.h:213-227 | the list of matches of a group holds each matching position once, increasing |
| MetadataGroup.WordGroup.ClearByte | common/raw_hashtable_metadata_group.h:606-613 | empties one byte of a group and keeps the others |
| MetadataGroup.WordGroup.ClearDeleted | common/raw_hashtable_metadata_group.h:615-631 | the group becomes the group with its tombstones emptied |
| MetadataGroup.LoadKeepsBytes | common/raw_hashtable_metadata_group.h:780-786 | a loaded word has the bytes of memory in order |
| MetadataGroup.LoadedWord | common/raw_hashtable_metadata_group.h:780-786 | a group of eight metadata bytes is loaded into a word with just these bytes |
| TableLayout.SomeSlotIsEmpty | common/raw_hashtable.h:1687-1692 | within the growth threshold some slot is always empty |
| TableLayout.EighthIsEmpty | common/raw_hashtable.h:1687-1692 | in every table at least an eighth of the slots is empty, counted as a set |
| TableLayout.IndexAndTag | common/hashing.h:646-651 | index and tag are the hash split in two |
| TableLayout.ProbeMeetsEmpty | common/raw_hashtable.h:990-1034 | every probe sequence meets a group with an empty slot within one round |
| TableLayout.EmptyEndsSearch | common/raw_hashtable.h:1019-1026 | a group with an empty slot where the key was not found proves the key absent |
| TableLayout.PlacedIsOkExcept | common/raw_hashtable.h:1272-1277 | giving a reachable empty or tombstone slot to a new key keeps the layout invariant |
| TableLayout.RemovedIsOk | common/raw_hashtable.h:1433-1452 | erasing keeps the invariant if the byte becomes a tombstone or its group already had an empty slot |
| TableGrowth.NewHomeIsOldHome | common/raw_hashtable.h:1694-1720 | in the doubled table a key's first group is its old first group or that group in the high half |
| TableGrowth.TakesIffHome | common/raw_hashtable.h:1694-1720 | exactly one of the two copies of a home slot belongs to its key, and no copy of another slot does |
| TableGrowth.SplitIsSound | common/raw_hashtable.h:1774-1864 | the split table, home entries only and no tombstones, satisfies the whole invariant at twice the size |
| TableGrowth.MasksDecide | common/raw_hashtable.h:1802-1820 | the masks of the walk find the home entries and the half they go to |
| TableGrowth.SplitUsed | common/raw_hashtable.h:1842-1881 | the bytes in use after the split and the probed entries together are the old present entries |
| TableGrowth.GrownFacts | common/raw_hashtable.h:1865-1881 | once the probed entries are back the map, the budget and the places of the home keys are as promised |
| TableGrowth.GrowTargetIsEnough | common/raw_hashtable.h:1401-1422 | the power of two chosen for an insert count is larger than the table and its threshold leaves more than that count |
| TableGrowth.GrowTargetIsLeast | common/raw_hashtable.h:1412-1421 | that power of two is the least one of which seven eighths exceed the used slots and the count |
| RawHashtable.MapBase.constructor | common/raw_hashtable.h:1503-1517 | a new table is valid and empty, in its small buffer or else 64 slots, with a budget of seven eighths of them |
| RawHashtable.MapBase.LookupEntry | common/raw_hashtable.h:973-1035 | finds the slot of a key exactly when the key is present, with fewer calls to Next than groups, and the work of a hit is the work the metrics describe |
| RawHashtable.MapBase.FindInGroup | common/raw_hashtable.h:1000-1018 | compares keys at exactly the tag matches before the key, and finds it exactly when it is in the group |
| RawHashtable.MapBase.InspectGroup | common/raw_hashtable.h:992-1026 | one probed group yields the key, proves it absent, or leaves one more group searched |
| RawHashtable.MapBase.FindEmpty | common/raw_hashtable.h:1311-1342 | yields the first empty slot of a group, where the probe of the key ends, or one more group is searched |
| RawHashtable.MapBase.ProbeForInsert | common/raw_hashtable.h:1279-1343 | finds the key; otherwise the first empty slot in the first group with one, where the probe ends, and the first tombstone of all groups up to there, if there is one; the key may be placed in either |
| RawHashtable.MapBase.FindDeleted | common/raw_hashtable.h:1302-1306 | finds the first tombstone of a group exactly when the group has one, and the key may be placed there |
| RawHashtable.MapBase.InsertImpl | common/raw_hashtable.h:1252-1343 | reports whether the key is new; a new key takes the first tombstone of its probe, free, or else the first empty slot, for one unit of budget, and no other byte changes; with neither tombstone nor budget the table doubles |
| RawHashtable.MapBase.ReserveSlot | common/raw_hashtable.h:1272-1277 | the byte of a found slot carries the tag, no other byte changes, and only its entry is left to construct |
| RawHashtable.MapBase.GrowAndInsert | common/raw_hashtable.h:1894-1904 | doubles, pays one unit and reserves a slot for the key |
| RawHashtable.MapBase.Construct | common/map.h:491-493 | constructing the entry of a reserved slot completes the insertion |
| RawHashtable.MapBase.InsertIntoEmpty | common/raw_hashtable.h:1651-1672 | places a key in the first empty slot of the first group of its probe that has one |
| RawHashtable.MapBase.EraseImpl | common/raw_hashtable.h:1424-1459 | returns whether the key was present and removes it alone; its byte becomes empty, with the budget returned, exactly when its group had an empty slot, else a tombstone |
| RawHashtable.MapBase.GroupIsFull | common/raw_hashtable.h:1443-1447 | says exactly whether the group of a slot has no empty slot |
| RawHashtable.MapBase.ClearImpl | common/raw_hashtable.h:1461-1473 | everything is erased, the allocation stays, the budget is seven eighths of the slots |
| RawHashtable.MapBase.Decide | common/raw_hashtable.h:1802-1820 | says whether an entry is at home and in which half it goes |
| RawHashtable.MapBase.ClearWrongHalf | common/raw_hashtable.h:1806-1828 | the byte stores leave an entry's byte only where the entry goes |
| RawHashtable.MapBase.SplitGroup | common/raw_hashtable.h:1775-1841 | either variant of the walk has the same contract |
| RawHashtable.MapBase.SplitGroupInRegister | common/raw_hashtable.h:1777-1840 | one group of the doubling on two loaded words, with the iterator over present bytes and byte clears, each word stored once, leaves the bytes of the split |
| RawHashtable.MapBase.WalkInRegister | common/raw_hashtable.h:1795-1836 | the iterator visits every present entry of the group, and the two words end as the two halves of the split group |
| RawHashtable.MapBase.SplitGroupByStores | common/raw_hashtable.h:1777-1840 | one group of the doubling by byte stores leaves the same bytes |
| RawHashtable.MapBase.SplitGroups | common/raw_hashtable.h:1774-1841 | either way the metadata becomes the split of the old table, the probed entries are listed in order, and entries are moved or copied where they belong |
| RawHashtable.MapBase.BulkCopy | common/raw_hashtable.h:1853-1864 | the bulk copy puts every old entry at its place in both halves |
| RawHashtable.MapBase.ReinsertProbed | common/raw_hashtable.h:1865-1871 | every probed entry is inserted again, under its key and with its value |
| RawHashtable.MapBase.GrowToNextAllocSize | common/raw_hashtable.h:1721-1887 | doubling keeps the map, leaves no tombstone, keeps each home key at its byte in the low or high half, and leaves a positive budget of threshold less entries |
| RawHashtable.MapBase.RehashInto | common/raw_hashtable.h:1360-1398 | growth by more than a doubling keeps the map and leaves a positive budget of threshold less entries |
| RawHashtable.MapBase.GrowToAllocSizeImpl | common/raw_hashtable.h:1345-1398 | does nothing to a table that is large enough; otherwise keeps the map at the wanted size with a positive budget |
| RawHashtable.MapBase.GrowForInsertCountImpl | common/raw_hashtable.h:1400-1422 | afterwards the budget exceeds the count; the table is touched only if it did not before, and then its new size is the least of which seven eighths exceed the used slots and the count |
| RawHashtable.MapBase.Insert | common/map.h:475-494 | a new key gets the value, a present key keeps its own; without budget and tombstones a new key doubles the table |
| RawHashtable.MapBase.UpdateWith | common/map.h:539-561 | a new key gets the inserted value, a present key has its value updated |
| RawHashtable.MapBase.Update | common/map.h:496-513 | the key holds the new value, and the result says whether it was new |
| RawHashtable.MapBase.Lookup | common/map.h:417-432 | returns exactly the mapped value, or none |
| RawHashtable.MapBase.Contains | common/map.h:410-415 | says exactly whether the key is present |
| RawHashtable.MapBase.Reset | common/raw_hashtable.h:2009-2016 | empty and back at the small buffer, or else 64 slots, with a budget of seven eighths of them, also from a table that was moved from |
| RawHashtable.MapBase.AssignFrom | common/raw_hashtable.h:1923-1962 | a copy has the bytes with their tombstones, the map and the budget of the other table, which is unchanged; a moved-from table may be assigned to, and assigning from one gives one; assigning to itself does nothing |
| RawHashtable.MapBase.CopySlotsFrom | common/raw_hashtable.h:1561-1599 | copying the bytes and the present entries carries the invariant over |
| RawHashtable.MapBase.MoveFrom | common/raw_hashtable.h:1978-2000 | takes over map, bytes and budget, by the arrays themselves or out of a small buffer, and leaves a moved-from table behind; either table may have been moved from, and moving a table into itself leaves it moved-from |
| HashtableRuns.Perform | common/map.h:475-585 | each operation keeps the invariant and answers and acts as on a plain map |
| HashtableRuns.Run | common/map.h:475-585 | every run of operations answers like a plain finite map and ends with its contents |
| HashtableRuns.Compare | common/map.h:475-585 | two tables with the same contents cannot be told apart by any run, whatever their hash functions, widths and sizes |
| HashtableRuns.InsertAll | common/map.h:350-352 | a list of insertions acts as on a plain map and never grows a table whose budget suffices |
| HashtableRuns.ReserveAndInsert | common/map.h:344-360 | after making room for some insertions, that many insertions keep the allocation |
| HashtableRuns.KeysAreIndependent | common/map.h:475-585 | what a run does to one key does not depend on operations on others |
| HashtableRuns.GrowthIsInvisible | common/map.h:563-573 | of two tables with the same contents one runs any operations and the other the same without those that only grow: the other answers are equal, and so are the contents |
| TableBudget.UsedIsKeysAndTombstones | common/raw_hashtable.h:1321-1337 | the bytes in use are one per key and one per tombstone |
| TableBudget.BudgetIsConserved | common/raw_hashtable.h:1321-1337 | the budget, the keys and the tombstones always make seven eighths of the slots, and the budget is never negative |
| TableBudget.FillToThreshold | common/raw_hashtable.h:117-120 | different keys for seven eighths of the slots fill a cleared table without growth and leave the budget at zero |
| TableBudget.FillAndGrow | common/raw_hashtable.h:1321-1337 | and the next new key doubles it |
| TableIteration.WalkYieldsEachEntryOnce | common/raw_hashtable.h:1157-1186 | with any start group and any odd stride a walk yields each present slot exactly once and nothing else |
| TableIteration.DebugWalkIsRelease | common/raw_hashtable.h:1157-1186 | the debug walk yields the same collection of slots as the in-order walk |
| TableIteration.DrawnOrderIsOdd | common/raw_hashtable.h:1200-1214 | whatever the entropy, the drawn order starts at a group and strides an odd number of groups |
| TableIteration.EntryIterator.constructor | common/raw_hashtable.h:1113-1155 | the iterator starts at the first slot of the walk |
| TableIteration.EntryIterator.Advance | common/raw_hashtable.h:594-614 | each increment drops exactly the first remaining slot of the walk |
| TableIteration.EntryIterator.Deref | common/raw_hashtable.h:594-602 | dereferencing gives the first remaining slot of the walk |
| TableIteration.EntryIterator.AdvanceDebug | common/raw_hashtable.h:1163-1173 | the debug step goes on to the next visited group with a present entry, or ends |
| TableIteration.EntryIterator.AdvanceInOrder | common/raw_hashtable.h:1175-1185 | the release step goes on to the next group in memory with a present entry, or ends |
| TableIteration.ForEachEntry | common/raw_hashtable.h:1231-1248 | a loop over the entries sees the slots of the walk with the keys and values of the map |
| TableIteration.EachKeyOnce | common/raw_hashtable.h:1113-1186 | every key is seen exactly once, and whatever is seen is the slot of a key |
| TableMetrics.LookupWorkIsUnique | common/raw_hashtable.h:990-1034 | the steps and failed comparisons of a hit are determined by the table and the key |
| TableMetrics.ProbeOf | common/raw_hashtable.h:1060-1090 | the inner loop terminates and computes the steps and failed comparisons that a lookup of that key makes |
| TableMetrics.WalkToGroup | common/raw_hashtable.h:1069-1077 | the probing loop terminates at the entry's group, having counted its steps and the matches before it |
| TableMetrics.TallyCounts | common/raw_hashtable.h:1058-1065 | the key count and the probed key count are those of the present keys |
| TableMetrics.ComputeMetrics | common/raw_hashtable.h:1037-1104 | key, tombstone and probed key counts, maxima, and averages that times the key count are the sums of steps and failed comparisons over the lookups of all present keys |
| TableMetrics.TallySums | common/raw_hashtable.h:1091-1096 | the running sums are the sums over the set of keys met so far |
| TableMetrics.SumWithout | common/raw_hashtable.h:1091-1096 | such a sum less any one slot is less exactly the term of that slot |
| TableMetrics.TallyMaxima | common/raw_hashtable.h:1091-1096 | the reported maxima bound every lookup and are attained |
| TableMetrics.OwnedSlotsAreKeys | common/raw_hashtable.h:1053-1059 | there are as many present slots as keys |
| Filesystem.FileSystem.Rmtree | common/filesystem.cpp:513-616 | succeeds for a directory or a missing path, removing exactly the subtree; else fails with nothing changed; terminates and its checks hold, whatever kinds are unknown and in whatever order entries are read |
| Filesystem.FileSystem.QueueEntries | common/filesystem.cpp:572-597 | sorts the entries of a directory so that each one is pending or of unknown kind and nothing pending is known to be a file |
| Filesystem.FileSystem.UnlinkUnknown | common/filesystem.cpp:599-611 | removes exactly the files among the unknown entries and queues the directories |
| Filesystem.RmdirMeans | common/filesystem.h:1763-1770 | succeeds exactly for a directory whose removal leaves a tree; not empty exactly for another directory; not a directory exactly when something on the path, itself included, is none; no entity exactly for the missing rest |
| Filesystem.UnlinkMeans | common/filesystem.h:1754-1761 | succeeds exactly for what exists and is no directory, which leaves a tree; reports a directory or a missing entry exactly for those |
| Filesystem.FileSystem.ReadEntries | common/filesystem.cpp:579-596 | reads every entry of a directory in some order, and "." and "..", each with its kind or none |
| Filesystem.FramePushed | common/filesystem.cpp:559-611 | opening a directory ties its entries to its own frame and keeps the removal's invariant |
| Filesystem.PopFrame | common/filesystem.cpp:526-538 | a frame whose entries are done is that of an empty directory, and popping it keeps the invariant |
| Filesystem.EntryRemoved | common/filesystem.cpp:540-553 | removing the last entry keeps the invariant, or ends the removal with exactly the subtree gone and the stack empty |
| Filesystem.EntryRefused | common/filesystem.cpp:554-557 | only the path itself can be refused as no directory, and then nothing was changed |
| Filesystem.NotEmptyDirectory | common/filesystem.cpp:559-570 | a directory that is opened was never opened before, so the removal terminates |
| Filesystem.RmtreeAgain | common/filesystem.h:964-968 | removing a tree twice succeeds and changes nothing the second time |
| Latch.StepKeepsInv | common/latch.cpp:11-58 | every step of a caller who keeps the contract passes the checks and keeps the invariant |
| Latch.EveryRun | common/latch.cpp:11-58 | over all interleavings no check fails, the count is the number of live handles, and closures run once each in order of their cycles, all of them by the time the latch is satisfied |
| Latch.ClosureAfterLastHandle | common/latch.cpp:43-50 | a closure is taken out only when no handle of its cycle is left |
| Latch.OneLastDecrementPerCycle | common/latch.h:112-121 | exactly one decrement per cycle sees the last handle |
| Latch.ReinitInsideClosure | common/latch.h:54-56 | once its closure is taken out the latch can be initialised again while the closure runs |
| Latch.InitIsSafeIff | common/latch.cpp:54-58 | with the count at zero an Init follows the contract exactly when no release is about to take the closure, and exactly then the closure of the cycle before is taken out in some continuation, or already was |
| Latch.InitWhileDeciding | common/latch.cpp:43-58 | while a release is deciding, an Init that passes its check loses the stored closure in every continuation, and that release takes out the new closure although the new handle is held |
| Latch.SafeInitRuns | common/latch.h:54-60 | after an Init that follows the contract no run fails a check, every earlier closure was taken out, and none is taken out while a handle is held |
| Latch.InitTooEarly | common/latch.cpp:54-58 | a run within the contract reaches such a state, and the Init that follows passes its check and loses the first closure |
| Latch.PerformShared | common/latch.cpp:11-58 | the latch object takes the same steps as the model's shared state |
| Latch.LatchObject.FetchSub | common/latch.cpp:26-52 | decrements, and says whether this was the last |
| Latch.RunCountsLast | common/latch.cpp:41-50 | along any run, decrements that saw the last handle are as many as closures taken or about to be |
| Parsing.CommandBuilder.AddArg | common/command_line.cpp:1501-1510 | accepts exactly valid new names and keeps the command well built |
| Parsing.CommandBuilder.AddPositionalArg | common/command_line.cpp:1512-1533 | accepts exactly a valid name, without subcommands, and required only after required ones, and keeps the command well built |
| Parsing.CommandBuilder.AddSubcommand | common/command_line.cpp:1450-1465 | accepts exactly a valid new name, without positional arguments, and keeps the command well built |
| Parsing.CommandBuilder.RequireSubcommand | common/command_line.cpp:1471-1480 | accepted exactly with subcommands, without positional arguments and before another kind is set |
| Parsing.CommandBuilder.SetAction | common/command_line.cpp:1482-1496 | accepted exactly before another kind is set |
| Parsing.Parser.PopulateMaps | common/command_line.cpp:816-838 | the three maps become those of the active command, with nothing parsed yet |
| Parsing.Parser.ParseArg | common/command_line.cpp:940-997 | takes the step of one occurrence: its meta action, then the value it denotes; it is refused with an error exactly when that error is due |
| Parsing.Parser.ParseLongOption | common/command_line.cpp:1011-1033 | takes the step of the long option, or reports its error |
| Parsing.Parser.ParseShortOptionSeq | common/command_line.cpp:1035-1065 | takes the steps of the letters in order up to the first error |
| Parsing.Parser.FinalizeParsedOptions | common/command_line.cpp:1067-1102 | exactly the options that did not occur, have a default and no meta action get it, and the missing required ones are reported, in whatever order the map is walked |
| Parsing.Parser.ParsePositionalArg | common/command_line.cpp:1104-1127 | stores the word in the argument at the index, which moves on unless it appends |
| Parsing.Parser.ParseSubcommand | common/command_line.cpp:1129-1147 | finishes the options of the command and descends into the subcommand with fresh maps |
| Parsing.Parser.ParsePositionalSuffix | common/command_line.cpp:1209-1246 | takes the steps of a suffix, where a `--` ends an appending argument or skips one |
| Parsing.Parser.FinalizeParse | common/command_line.cpp:1149-1207 | its outcome is that of the parse: parsed, meta or no subcommand exactly by meta action, missing arguments and the kind of the command; the index is in range, and its checks never fail |
| Parsing.Parser.Parse | common/command_line.cpp:1258-1315 | the parser's result and storage are those of the parse of the same tokens, and the result is parsed, meta, or an error exactly when the tokens say so |
| CommandLineOutcomes.OutcomeIs | common/command_line.cpp:1149-1315 | exact condition on the tokens for each outcome: success, meta success, and every error, due at the first token refused or at the end; with a meta action it is the last one read |
| CommandLineOutcomes.TokensDecide | common/command_line.cpp:1258-1315 | the tokens are taken exactly when none is refused, the error is exactly that of the first one refused, and path, place and record are what the tokens say |
| CommandLineOutcomes.StepFails | common/command_line.cpp:1265-1312 | after readable tokens the next one fails with an error exactly when that error is due for it, one condition for each error |
| CommandLineOutcomes.FinishIs | common/command_line.cpp:1149-1207 | exact condition for each outcome once all tokens are read |
| CommandLineOutcomes.OccurrenceMeans | common/command_line.cpp:864-997 | every occurrence of an argument denotes one value of its kind or is refused with one error |
| CommandLineOutcomes.OptionValues | common/command_line.cpp:1011-1102 | after a success every option of every selected command holds the values its spelled occurrences denote, all in order or the last, or its default if it was not spelled |
| CommandLineOutcomes.LastValue | common/command_line.cpp:864-997 | kind by kind what the last occurrence leaves: true for `--x` and `--x=true`, false for `--no-x` and `--x=false`, the integer read, the text, the index of the text, or the default of a bare option |
| CommandLineOutcomes.PositionalValues | common/command_line.cpp:1104-1127 | after a success every positional argument holds the values its words denote, all in order or the last |
| CommandLineOutcomes.LongIsRead | common/command_line.cpp:1011-1033 | a long option is read as the name, the negation and the value it is spelled with |
| CommandLineOutcomes.LongIsSpelled | common/command_line.cpp:1011-1033 | every long token is the spelling it is read as |
| CommandLineOutcomes.GroupIsRead | common/command_line.cpp:1035-1048 | a group is read as its letters and the value after them |
| CommandLineOutcomes.TokenSpells | common/command_line.cpp:1011-1065 | a token spells one occurrence of the option it names, a group one for each letter, in order |
| CommandLineOutcomes.LetterNames | common/command_line.cpp:816-833 | a letter is known exactly when some option has it as its short name |
| CommandLineResults.LastWins | common/command_line.cpp:912-921 | an option that does not append holds the value of its last occurrence |
| CommandLineResults.PositionalsConserved | common/command_line.cpp:1104-1127 | the words are the subcommands followed by the positional tokens, and the positional arguments in order of declaration hold exactly the values of those tokens in order of input |
| RequiredArguments.RequiredGivenIff | common/command_line.cpp:1171-1242 | after a success the positional arguments given are exactly those passed and not skipped by a `--` directly after a `--`; so all required ones were given if and only if no required one is skipped |
| RequiredArguments.RequiredGivenWithoutDoubleMark | common/command_line.cpp:1228-1242 | after a success some argument was passed but not given exactly when the command line has two adjacent `--`; without them, other `--` or not, every required one was given |
| RequiredArguments.SuffixCovers | common/command_line.cpp:1209-1246 | in a suffix the arguments given stay exactly those passed and not skipped |
| RequiredArguments.RequiredCanBeSkipped | common/command_line.cpp:1230-1242 | a command line that succeeds although a required positional argument is skipped by `--` |
| CommandLineResults.TokensKeepInv | common/command_line.cpp:1258-1315 | the tokens read are exactly the words and options recorded, and the parser's invariant, with the index in range, is kept by all of them |
| CommandLineResults.SuffixKeepsInv | common/command_line.cpp:1209-1246 | the index never decreases in a suffix and never passes the number of arguments |
| CommandLineRuns.NegatedIsFalse | common/command_line.h:112-117 | anywhere on a command line `--no-x` and `--x=false` give the same outcome and values for a flag |
| CommandLineRuns.GroupIsItsLetters | common/command_line.h:126-130 | anywhere on a command line a group of short options is those options one by one, errors included |
| CommandLineRuns.ShortIsLong | common/command_line.h:121-130 | anywhere on a command line a short option, with or without a value, is its long option |
| CommandLineRuns.TokensInTwoParts | common/command_line.cpp:1258-1315 | parsing up to a `--` is sequential: a prefix, then the rest from the state it leaves |
| CommandLineRuns.AcceptedNames | common/command_line.cpp:1365-1383 | a name without `_` is accepted exactly when it is documented, has more than one character and does not end in a dash |
| Hashing.ReadSmallIsLossless | common/hashing.h:767-789 | values of the same size from 1 to 8 bytes that read the same are the same, overlapping reads included |
| Hashing.ReadSmallValue | common/hashing.h:767-789 | a small value is read as the number its bytes make, lowest first; with 6 or 7 bytes the middle ones are read twice |
| Hashing.Read4To8Value | common/hashing.h:701-707 | 4 to 8 bytes are read as the last four with the first four above them |
| Hashing.ReadTinyIsLossless | common/hashing.h:692-699 | strings of 1 to 3 bytes that read the same, with the size, are the same |
| Hashing.WeakMixIsLossless | common/hashing.h:726-736 | the weak mix never maps two words to one, with byte swapping or bit reversal |
| Hashing.ReversedDigits | common/hashing.h:726-736 | the reversal puts each byte, or each bit, at the mirrored place |
| Hashing.MixOfHalves | common/hashing.h:717-724 | mixing combines the low and the high half of the 128-bit product |
| Hashing.SampleAligned | common/hashing.h:376-383 | sampling at a multiple of eight bytes gives a word of the random data |
| Hashing.OddMultiplierIsLossless | common/hashing.h:726-727 | multiplying by an odd constant modulo 2^64 loses nothing |
| Hashing.SmallCodesDiffer | common/hashing.h:889-901 | with one seed, codes of values of one small type are equal exactly when the values are |
| Hashing.TinyCodesDiffer | common/hashing.h:964-967 | codes of strings of 1 to 3 bytes are equal exactly when the strings are |
| Hashing.EqualCodesMeet | common/hashing.cpp:17-85 | what is read enters the code: two seeds and strings of one length get one code only where one multiplication or xor gives the same result for different inputs; up to three bytes the strings are then the same |
| Hashing.NodesGiveCode | common/hashing.h:932-1015 | the code is the result of the last of these steps, whose number depends on the length alone |
| Hashing.NodesAreLossless | common/hashing.cpp:17-85 | these steps determine the seed and the string |
| Hashing.LengthsMeet | common/hashing.h:932-1015 | the length enters the code: so it is for two lengths that hash in the same way |
| Hashing.ShortSeeds | common/hashing.h:954-970 | of the strings of at most three bytes exactly the empty one has a code that depends on the seed |
| Hashing.Hasher.HashSizedBytesLarge | common/hashing.cpp:17-85 | for every size above 32 all reads are in bounds and cover every byte, and another string of that length leaves the same buffer only where a step gives one result for different inputs |
| Hashing.Hasher.HashSizedBytes | common/hashing.h:932-1015 | for every size all reads are in bounds and cover every byte, and the sampled random data is in range |
| Hashing.Hasher.HashRawSmall | common/hashing.h:889-901 | no two values of one length leave the same buffer: the code identifies the value |

## Left out

- SIMD group operations, prefetching, alignment and placement new: the portable operations are modelled, and a group of 16 is treated byte by byte through the queries rather than through its bit-encoded loop.
- Sizes near the limits of `int` and `ssize_t`: sizes and budgets are unbounded integers, so overflow of a requested size is not modelled.
- The allocator and object lifetimes: an entry is a value or raw storage, and a small buffer differs from heap storage only by being another array that a move copies out of.
- Group widths other than 8 and 16, which are the ones the code uses, and lookup by a type other than the key type.
- Callbacks of `Insert` and `Update`: modelled as the value they construct and as a function on the old value; key equality is equality of keys.
- `Set` and `TranslatingKeyContext`: the same raw table with other entries.
- The mutation-detection hash of iteration, and the entropy behind seeds and iteration order: any start group and any odd stride is allowed instead.
- A table that was moved from: it can be destroyed, reset, assigned and moved; any other use is outside the model, as the documentation excludes it (`common/raw_hashtable.h:121-123`).
- The other operations of `common/filesystem.cpp`, other actors during a removal, permission errors and symbolic links on the way to the path: paths are taken as resolved sequences of plain names, and unlinking a directory reports that it is one.
- Memory orders of `Latch`: atomic steps are sequentially consistent; a dropped handle and a destroyed one are the same step.
- Help, version and usage output, error texts, and how integers are read, which is a parameter; storage shared between arguments.
- Checks that abort on a wrongly built command and are not made by the builder (a short name of several characters, a command without an action), and defaults on appending arguments, for which `SetOptionDefault` has no case: assumed away by `Configured`.
- Storage after a failed parse: only the error is stated.
- Hashing of larger types, tuples and arrays of hashable values, and any claim on the quality of codes beyond 8 bytes.
