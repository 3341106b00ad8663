# Verification of ILDJIT's string, locking, socket and loader algorithms

This project models, in Dafny, algorithms of the ILDJIT runtime that are written out in C loops over
buffers or as short protocols, and proves what they promise.

| file | models |
|---|---|
| `Interlocked.dfy` | the lock / load / store / unlock protocol of the Interlocked operations, run by any number of threads in any order, with location mutexes looked up in a table that is filled on demand |
| `InterlockedResults.dfy` | what linearizability gives: exact counters, distinct tickets, one winner; and that no operation gets stuck |
| `ThreadsManager.dfy` | the same operations as methods over the manager's fields, and their agreement with the protocol |
| `Text.dfy` | replacement, splitting and joining on plain sequences, and their laws |
| `Strings.dfy` | string objects (storage, capacity, length) and the allocation of new ones |
| `StringReplace.dfy` | the two-pass replacement of a string, and the replacement of a unit |
| `StringSplit.dfy`, `SplitLaws.dfy` | the strsep tokenizer working in place on a byte buffer; how it relates to joining and replacing |
| `StringSearch.dfy` | forward and backward searches for units and strings |
| `StringCompare.dfy` | ordinal comparison and equality |
| `BuilderModel.dfy` | what the edits of a StringBuilder do to its contents and capacity, in 32 bits, and its runs |
| `StringBuilders.dfy`, `BuilderRuns.dfy` | the copy-on-write builder, and whole runs of edits on it |
| `SocketSelect.dfy` | the deadline arithmetic, the retry loop and the descriptor arrays of Select |
| `ByteOrder.dfy` | the 64-bit byte swap made of two 32-bit ones |
| `SectionTable.dfy` | the section-table loader and the address translation that relies on its checks |
| `Reflection.dfy` | name comparison and the two-pass field lookup |

## How to read the model

- Code that updates objects or buffers is modelled by classes and methods over arrays and fields, and
  each such method is tied by its contract to functions on plain values.  The laws are then proved
  about those functions.
- The protocol of the Interlocked operations is a step relation.  A schedule is any list of steps; a
  step that is not enabled leaves the state alone, so every schedule is a run.  Histories are the
  calls and returns that can be seen from outside, and `Linearization` speaks of nothing else.
- Units are 16-bit *signed* numbers, bytes 8-bit signed numbers, as the source declares them.  Where the
  source relies on 32 bits (counters, windows of a backward search, section addresses, descriptors,
  nanoseconds, lengths and capacities of strings) wrap-around is written out; signed overflow is taken to
  wrap around.
- Lemmas whose names end in `InPlainTerms` say what a specification function means without calling it.
- An exception raised ends the call; it is a `Raised` or `Refused` result or a flag.  Where an assertion of
  the code fails, or a wrapped size makes it leave its storage, the result is `Broken` (of an edit, `Ends`)
  and nothing is promised of what follows.  Contracts say exactly when that is so; no caller is asked to
  avoid it.
- The environment is a parameter: the readings of the clock and the outcomes of the trial calls of
  `select` are a list of any length, the mutex a location gets when it is first used is arbitrary.

## Properties that do not hold of the code for all inputs

For each of these the project proves exactly when the code does meet the property.

- *Split is inverse to join, and replacing a unit is splitting and joining.*  Split keeps only the low byte
  of every unit, ends at the first zero byte, and extends the sign when it makes strings again.  The
  laws hold for the strings that are `Faithful` and for no others (`JoinSplitRoundTrip`,
  `SplitYieldsFields`, `ReplaceIsJoinOfSplit`, `SplitJoinRoundTrip`); U+0161 is an example that is not
  (`WideUnitsAreLost`).
- *FindInRange returns -1 when the range is empty.*  For an empty needle it returns the place where the search
  begins (`EmptyNeedle`, `EmptyNeedleInEmptyRange`).
- *A builder's capacity never exceeds its maximum*, which `EnsureCapacity` asserts on entry (lines 1365-1368).
  Storage is rounded up to a multiple of eight after the maximum is applied.  Over all runs of edits the
  assertions hold if and only if they hold at the start and the maximum is a multiple of eight or greater
  than 0x7FFFFC00 (`AssertionsHold`; a run that fails is in `NinthUnitBreaks`).
- *Insertions and reservations either succeed or are refused.*  Lengths are added and multiplied in 32 bits, and
  requests are rounded up in 32 bits.  `RoomFor` says for which totals there really is room, for which the
  insertion is refused, and that otherwise the code leaves its storage (`InsertedLengthIsExact`,
  `RepeatedInsertionOverruns`, `LongRequestOverruns`).
- *Replacing a string by a string works for all strings.*  The length of the result and the sums of a position and the
  needle's length are 32 bits wide.  The two passes work if and only if the string is not `TooLong`
  (`ReplaceStringString`, `LastSumDecides`; an input that is, in `LongReplacementOverruns`).
- *After Select every handle that is not ready is invalid.*  A handle other than -1 whose low 32 bits are all
  ones is taken for no descriptor and stays (`UpdateKeepsExactlyReady`, `WideHandleIsOverlooked`).
- *The window of a backward search is refused only if it begins before the string.*  The sum that is tested
  wraps around in one case (`BadWindows`).
- *The two modes of reflectionStringCmp order names alike up to case.*  They do if and only if the folded names do not
  differ first at a place where one has a byte above 127 and the other has not (`ModesAgree`;
  `ModesDisagreeOnHighBytes` is an example).

## Model

| member | source | states |
|---|---|---|
| Interlocked.RunsAreLinearizable | clrbase/src/internal_calls_thread.c:514-611 | every run of any number of threads is linearizable: one sequential order of calls, containing all completed ones, explains all replies and the memory reached, and respects real time, however mutexes are assigned |
| Interlocked.OrderInPlainTerms | clrbase/src/internal_calls_thread.c:526-606 | along a sequential order every operation finds what the one before it left, replies what it found (the counting ones what they leave), and changes only its location: a compare-exchange exactly if it found the comparand, a count by one with wrap-around |
| Interlocked.RepliesInPlainTerms | clrbase/src/internal_calls_thread.c:514-611 | in any run, what a call was told is what it found, or left, at its place in a sequential order that explains the run |
| MachineIntegers.WrapIsCongruent | clrbase/src/internal_calls_thread.c:579-581 | a wrapped number differs from the number by a multiple of 2^32 |
| Interlocked.StepKeepsInv | clrbase/src/internal_calls_thread.c:526-532 | one step of any thread keeps the invariant behind linearizability |
| Interlocked.MutualExclusion | libclimanager/src/lib_thread.c:277-289 | two threads are never inside critical sections of one location, nor of locations that share a mutex |
| Interlocked.StoreIsNewValue | clrbase/src/internal_calls_thread.c:528-531 | between load and store the location keeps the value loaded, so the store is that of the operation run alone |
| InterlockedResults.CounterNeverLosesUpdates | clrbase/src/internal_calls_thread.c:579-606 | at every moment a counter is its initial value plus some set of increments minus some set of decrements that were called, each set containing all completed ones, modulo 2^32 |
| InterlockedResults.CounterIsExactAtRest | clrbase/src/internal_calls_thread.c:579-606 | with no operation in progress, the counter moved by exactly the calls made |
| InterlockedResults.TicketsAreDistinct | clrbase/src/internal_calls_thread.c:579-587 | up to 2^32 increments of a location that nothing else touches return pairwise different values |
| InterlockedResults.AtMostOneWinner | clrbase/src/internal_calls_thread.c:526-537 | of the compare-exchanges from the initial value to others, at most one is told it saw that value |
| InterlockedResults.RaceHasOneWinner | clrbase/src/internal_calls_thread.c:526-537 | at rest exactly one was told so, and the location holds its value |
| InterlockedResults.RunsAreWellMatched | clrbase/src/internal_calls_thread.c:514-611 | in every run each return answers a call and each call is answered or still in progress |
| InterlockedResults.AtRestAllAreCompleted | clrbase/src/internal_calls_thread.c:514-611 | with no operation in progress every call has been answered |
| InterlockedResults.SomeThreadCanMove | libclimanager/src/lib_thread.c:277-289 | no deadlock: a thread that cannot move waits for a mutex whose owner can |
| InterlockedResults.EveryOperationCanComplete | clrbase/src/internal_calls_thread.c:514-611 | from every state of every run some continuation without new calls, at most six steps for each operation in progress, completes them all, and then every call has been answered |
| InterlockedResults.FreeThreadFinishes | clrbase/src/internal_calls_thread.c:526-532 | a thread that has its mutex, or while no mutex is locked, gets to the end of its operation with the others standing still |
| ThreadsManager.Manager.GetLock | libclimanager/src/lib_thread.c:1326-1351 | a location keeps the mutex it was first given; other entries stay |
| ThreadsManager.Manager.LockLocation | libclimanager/src/lib_thread.c:277-282 | exactly the location's mutex becomes locked |
| ThreadsManager.Manager.UnlockLocation | libclimanager/src/lib_thread.c:284-289 | exactly the location's mutex becomes free |
| ThreadsManager.Manager.CompareExchange | clrbase/src/internal_calls_thread.c:514-538 | run alone: stores the value iff the comparand was there, returns what was there, win or lose, restores the locks |
| ThreadsManager.Manager.Exchange | clrbase/src/internal_calls_thread.c:541-562 | run alone: stores the value, returns what was there |
| ThreadsManager.Manager.Increment | clrbase/src/internal_calls_thread.c:566-587 | run alone: adds one modulo 2^32 and returns the new value |
| ThreadsManager.Manager.Decrement | clrbase/src/internal_calls_thread.c:590-611 | run alone: subtracts one modulo 2^32 and returns the new value |
| ThreadsManager.AloneIsTheMethod | clrbase/src/internal_calls_thread.c:514-611 | the protocol steps of one thread, run without interruption in any state, have the effect of the method |
| Text.ReplaceIsLeftmost | clrbase/src/internal_calls_string.c:552-586 | replacement exchanges exactly the leftmost non-overlapping matches, which are unique, and changes the length by their number times the difference |
| Text.MatchInPlainTerms | clrbase/src/internal_calls_string.c:32-35 | a match at a place, unit by unit |
| Text.LeftmostIsUnique | clrbase/src/internal_calls_string.c:555-564 | there is only one selection of matches such that every match is selected or begins inside a selected one |
| Text.ReplaceAbsent | clrbase/src/internal_calls_string.c:565-566 | without an occurrence nothing changes |
| Text.ReplaceAtFirstMatch | clrbase/src/internal_calls_string.c:576-586 | the first match is replaced, then the rest of the sequence |
| Text.ReplaceRoundTrip | clrbase/src/internal_calls_string.c:500-598 | a unit that does not occur can stand for the needle and be replaced back |
| Text.ReplaceIsJoin | clrbase/src/internal_calls_string.c:552-586 | replacing a unit is splitting at it and joining, for any glue |
| Text.JoinFields | clrbase/src/internal_calls_string.c:1297-1309 | joining the fields of a sequence gives it back |
| Text.FieldsJoin | clrbase/src/internal_calls_string.c:1297-1309 | the fields of a join of separator-free fields are those fields |
| Text.FieldsAreTheOnlySplit | clrbase/src/internal_calls_string.c:1297-1309 | the fields are the only list of separator-free pieces that joins to the sequence |
| Text.FieldsFirst | libplatform/src/platform_API.c:1596-1631 | the first field ends at the first separator and the rest are the fields of what follows |
| Strings.CopyUnits | clrbase/src/internal_calls_string.c:579 | memcpy: the target stretch is the source stretch, everything else stays |
| Strings.NewInstance | libclimanager/src/lib_string.c:413-436 | a fresh string of the given units; none exactly if the rounded length wraps around |
| Strings.NewBuilder | libclimanager/src/lib_string.c:438-490 | a fresh copy, or an empty string for null, with capacity rounded up to eight, -1 standing for the string's own length; units beyond it are dropped; none exactly if the rounded capacity is negative |
| Strings.CapacityInPlainTerms | libclimanager/src/lib_string.c:443-450 | the capacity of a new builder string: the least multiple of eight that suffices, 0 for -7 to -2, negative beyond 0x7FFFFFF8 and from -8 down |
| StringReplace.MeasureReplacement | clrbase/src/internal_calls_string.c:553-568 | the first pass finds out whether the needle occurs and counts the length of the replacement modulo 2^32; it reads beyond the string exactly if a sum of position and needle length wraps around |
| StringReplace.WriteReplacement | clrbase/src/internal_calls_string.c:574-586 | the second pass writes the replacement and every cell once, in order, ending exactly at its length; it goes wrong exactly if the buffer is too short or a sum wraps around |
| StringReplace.ReplaceStringString | clrbase/src/internal_calls_string.c:500-598 | the result is the replacement; it is the original object exactly when the needle is empty or does not occur; a null needle raises; a string that is too long, and no other, breaks it |
| StringReplace.LastSumDecides | clrbase/src/internal_calls_string.c:555-577 | if there is a match, a sum of position and needle length wraps around in one of the passes exactly if the one at the last place they come to does |
| StringReplace.ShortIsNotTooLong | clrbase/src/internal_calls_string.c:555-577 | a string is not too long if it and the needle together stay below 2^31 and the result fits storage |
| StringReplace.LongReplacementOverruns | clrbase/src/internal_calls_string.c:555-570 | an input that is too long: the counted length is zero |
| StringReplace.MappedIsReplace | clrbase/src/internal_calls_string.c:665-671 | exchanging units one by one is replacement with strings of length one |
| StringReplace.ReplaceUnit | clrbase/src/internal_calls_string.c:644-684 | the result is that replacement, and a new object unless nothing can change |
| StringSplit.CopyLowBytes | libclimanager/src/lib_string.c:1044-1069 | the low bytes of the units, terminated by a zero |
| StringSplit.Strsep | libplatform/src/platform_API.c:1604-1626 | stops at the first separator or the end, terminates the token there in place, changes nothing else, and says where the next one starts |
| StringSplit.Strlen | clrbase/src/internal_calls_string.c:1302-1303 | the distance to the terminating zero |
| StringSplit.NewInstanceFromUTF8 | libclimanager/src/lib_string.c:287-314 | a fresh string of the bytes, each sign-extended |
| StringSplit.NextToken | clrbase/src/internal_calls_string.c:1301-1303 | the next field as a string, the buffer left ready for the one after it |
| StringSplit.InternalSplit | clrbase/src/internal_calls_string.c:1266-1319 | fresh strings: the first `count` fields of the byte string, all if there are fewer, one if `count` is zero; without the empty ones if so asked |
| StringSplit.DelimitersInPlainTerms | clrbase/src/internal_calls_string.c:1290-1295 | which bytes separate: the low bytes of the separators up to the first that is zero |
| StringSplit.LowByteIsCongruent | libclimanager/src/lib_string.c:326 | the byte kept of a unit is the unit modulo 256 |
| SplitLaws.SplitWithLimit | clrbase/src/internal_calls_string.c:1300-1309 | the tokens are a prefix of the fields, at most `count` of them, one if it is zero, fewer than all only if the limit was met; RemoveEmptyEntries gives the non-empty ones of that prefix |
| SplitLaws.NonEmptyIsExact | clrbase/src/internal_calls_string.c:1304-1307 | the non-empty ones are the fields at exactly the places where fields are not empty, in order |
| SplitLaws.SplitWithoutLimit | clrbase/src/internal_calls_string.c:1300-1309 | with a large count all fields |
| SplitLaws.JoinSplitRoundTrip | clrbase/src/internal_calls_string.c:1286-1309 | joining what Split yields gives the string back if and only if it is faithful |
| SplitLaws.SplitYieldsFields | clrbase/src/internal_calls_string.c:1286-1309 | Split yields the fields between the separators if and only if the string is faithful |
| SplitLaws.SplitJoinRoundTrip | clrbase/src/internal_calls_string.c:1286-1309 | splitting a join gives the fields back if and only if the join is faithful |
| SplitLaws.ReplaceIsJoinOfSplit | clrbase/src/internal_calls_string.c:552-586 | replacing a unit by any string is splitting and joining if and only if the string is faithful |
| SplitLaws.JoinOfSplit | libclimanager/src/lib_string.c:316-348 | for any string, faithful or not: what remains of it after splitting and joining |
| SplitLaws.WideUnitsAreLost | libclimanager/src/lib_string.c:316-336 | a string that does not survive |
| StringSearch.IndexOf | clrbase/src/internal_calls_string.c:686-720 | the first hit in the window, or -1 exactly if there is none; -1 for a bad window |
| StringSearch.IndexOfAny | clrbase/src/internal_calls_string.c:722-770 | the first unit of the window that is in the array, or -1; raises exactly for a bad window |
| StringSearch.ClampWindow | clrbase/src/internal_calls_string.c:790-794 | clamping moves the start into the string and keeps the lower end of the window |
| StringSearch.BadWindows | clrbase/src/internal_calls_string.c:780-784 | which windows are refused, the wrapped sum included |
| StringSearch.LastIndexOf | clrbase/src/internal_calls_string.c:772-811 | the last hit in the window asked for, cut to the string, or -1 exactly if there is none |
| StringSearch.LastIndexOfAny | clrbase/src/internal_calls_string.c:813-873 | the same for any unit of an array; null raises |
| StringSearch.SearchMirrors | clrbase/src/internal_calls_string.c:686-873 | searching backwards is searching the reversed string forwards |
| StringSearch.HitsAreUnique | clrbase/src/internal_calls_string.c:686-873 | the contracts of the searches leave only one answer, so searches with the same wanted units agree |
| StringSearch.HitsInPlainTerms | clrbase/src/internal_calls_string.c:686-873 | first and last hits, unit by unit |
| StringSearch.ScanForward | clrbase/src/internal_calls_string.c:1024-1049 | the least match in the range or -1, by either loop |
| StringSearch.ScanBackward | clrbase/src/internal_calls_string.c:1052-1077 | the greatest match in the range or -1, by either loop |
| StringSearch.FindInRange | clrbase/src/internal_calls_string.c:994-1080 | least match forwards, greatest backwards, -1 exactly if there is none; the beginning for an empty needle |
| StringSearch.MatchesInPlainTerms | clrbase/src/internal_calls_string.c:1022-1078 | least and greatest matches, place by place |
| StringSearch.EmptyNeedle | clrbase/src/internal_calls_string.c:1015-1019 | when the answer for the empty needle is the least or greatest match |
| StringSearch.EmptyNeedleInEmptyRange | clrbase/src/internal_calls_string.c:1015-1019 | a range without any match in which the empty string is found |
| StringSearch.FirstReplacementIsFound | clrbase/src/internal_calls_string.c:1024-1049 | a forward search of the whole string finds the place of the first replacement |
| StringCompare.InternalOrdinal | clrbase/src/internal_calls_string.c:413-462 | the sign of the result decides the order of the two slices: null first, then by the first differing signed unit, prefixes first |
| StringCompare.BeforeAtDifference | clrbase/src/internal_calls_string.c:432-456 | the order is decided at the first difference: the smaller signed unit, or the end, comes first; null comes before everything |
| StringCompare.DecidesInPlainTerms | clrbase/src/internal_calls_string.c:413-462 | negative, zero or positive exactly for before, equal or after |
| StringCompare.BeforeIsAsymmetric | clrbase/src/internal_calls_string.c:413-462 | the order is strict |
| StringCompare.BeforeIsTransitive | clrbase/src/internal_calls_string.c:413-462 | the order is transitive |
| StringCompare.BeforeIsTotal | clrbase/src/internal_calls_string.c:413-462 | any two slices are ordered or equal |
| StringCompare.Equals | clrbase/src/internal_calls_string.c:53-129 | true exactly for two nulls or two strings of the same units |
| StringCompare.CompareOrdinalWhole | clrbase/src/internal_calls_string.c:413-462 | on whole strings a comparison is zero exactly if Equals is true |
| BuilderModel.NewCapacity | libclimanager/src/lib_stringBuilder.c:219-233 | a capacity that suffices: up to 2047 units the old one, 1, or less than twice what is needed; then the next multiple of 1024; beyond 0x7FFFFC00 it wraps around |
| BuilderModel.DoublingIsLeast | libclimanager/src/lib_stringBuilder.c:225-232 | short strings get the least capacity that suffices among the old one times powers of two |
| BuilderModel.GrowthRespectsMaximum | libclimanager/src/lib_stringBuilder.c:173-180 | growth respects the maximum for every request if and only if the maximum is a multiple of eight or out of reach |
| BuilderModel.RoomFor | libclimanager/src/lib_stringBuilder.c:162-180 | for which totals there is room, for which the tests refuse, and that all others end in an overrun |
| BuilderModel.InsertInPlainTerms | clrbase/src/internal_calls_string.c:1562-1602 | when an insertion is done, refused or overruns, and that the text is then between what was before and after the index, with the exact capacity |
| BuilderModel.InsertTimesInPlainTerms | clrbase/src/internal_calls_string.c:1604-1656 | the same for a repeated string; a negative count is refused |
| BuilderModel.AppendInPlainTerms | libclimanager/src/lib_stringBuilder.c:133-213 | the same for appending, at the end |
| BuilderModel.ReserveInPlainTerms | clrbase/src/internal_calls_string.c:1365-1397 | reserving: outcome, untouched contents, exact capacity |
| BuilderModel.ReplaceInPlainTerms | clrbase/src/internal_calls_string.c:1783-1894 | the two replacements unit by unit, and when the range is refused |
| BuilderModel.RepeatedIsCopies | clrbase/src/internal_calls_string.c:1637-1645 | each copy of a repeated string is where it belongs |
| BuilderModel.RunInPlainTerms | clrbase/src/internal_calls_string.c:1350-1894 | runs, edit by edit |
| BuilderModel.InsertedLengthIsExact | libclimanager/src/lib_stringBuilder.c:317 | the length after an insertion is computed exactly if and only if it is below 2^31 |
| BuilderModel.RepeatedInsertionOverruns | clrbase/src/internal_calls_string.c:1625 | an insertion that overruns: two units 2^30 times, the product wraps around |
| BuilderModel.LongRequestOverruns | libclimanager/src/lib_stringBuilder.c:222-223 | reserving 0x7FFFFFFF units: the rounded request wraps around |
| BuilderModel.InsertRepeatedIsInsertTimes | clrbase/src/internal_calls_string.c:1562-1656 | inserting a repeated string is inserting the string that many times |
| BuilderModel.WholeRangeIsReplace | clrbase/src/internal_calls_string.c:1783-1894 | over the whole range the two replacements agree with each other and with String.Replace |
| BuilderModel.EditRespectsMaximum | clrbase/src/internal_calls_string.c:1350-1894 | no edit takes the capacity beyond a maximum that is a multiple of eight or out of reach |
| BuilderModel.AssertionsHold | clrbase/src/internal_calls_string.c:1366-1368 | the assertions of EnsureCapacity hold in every run of edits if and only if they hold at the start and the maximum is a multiple of eight or out of reach |
| BuilderModel.NinthUnitBreaks | clrbase/src/internal_calls_string.c:1366-1368 | a run in which one fails: a ninth unit appended where nine are allowed, then any reservation |
| StringBuilders.GetNewCapacity | libclimanager/src/lib_stringBuilder.c:219-233 | the loop computes that capacity |
| StringBuilders.StringBuilder.EnsureCapacity | clrbase/src/internal_calls_string.c:1350-1397 | contents stay; the exact new capacity; raises exactly outside the range; breaks exactly if an assertion fails or the request wraps around; otherwise no more than asked changes and a new string is the builder's own |
| StringBuilders.StringBuilder.ReplaceCC | clrbase/src/internal_calls_string.c:1783-1831 | every unit is exchanged, the capacity stays, and nothing is written unless the string is the builder's own |
| StringBuilders.StringBuilder.ReplaceCCII | clrbase/src/internal_calls_string.c:1833-1894 | the units of the range are exchanged; raises exactly for a bad range, changing nothing |
| StringBuilders.StringBuilder.MakeRoom | libclimanager/src/lib_stringBuilder.c:161-196 | a string of the builder's own with exactly the capacity the growth rule gives, a refusal exactly beyond capacity and maximum, or a wrapped request |
| StringBuilders.StringBuilder.Append | libclimanager/src/lib_stringBuilder.c:133-213 | the string is appended, with the exact new capacity, refused, or written beyond the storage, exactly as RoomFor says of the total |
| StringBuilders.CopyWithGap | libclimanager/src/lib_stringBuilder.c:318-349 | the copy gets the gap, although one unit before it is not copied again |
| StringBuilders.StringBuilder.OpenGap | libclimanager/src/lib_stringBuilder.c:280-400 | for any length, negative ones included: the units before and after the index are where they belong, in place or in a copy, with the exact new capacity; or refused, or out of the storage, exactly as GapOutcome says |
| StringBuilders.StringBuilder.InsertString | clrbase/src/internal_calls_string.c:1562-1602 | prefix, string, suffix; inserting nothing succeeds at any index; outcome and capacity exactly as the model says |
| StringBuilders.StringBuilder.InsertRepeated | clrbase/src/internal_calls_string.c:1604-1656 | prefix, the string repeated, suffix; a negative count raises; a product that wraps around is refused or overruns exactly as RoomFor says of the true total |
| StringBuilders.WrappedLengthDecides | clrbase/src/internal_calls_string.c:1625 | what opening a gap of the wrapped length means for the insertion of the true length |
| StringBuilders.WriteRepeated | clrbase/src/internal_calls_string.c:1637-1645 | the loop fills exactly the gap |
| BuilderRuns.Perform | clrbase/src/internal_calls_string.c:1350-1894 | every edit has the outcome, contents and capacity the model says, and leaves the strings of others alone |
| BuilderRuns.RunEdits | clrbase/src/internal_calls_string.c:1350-1894 | over any sequence of edits with the string handed out at any time, and used as an argument of later edits: outcomes, contents and capacity are those of the model, strings known before keep their text, strings handed out keep the text they had then; no assertion fails if maximum and first capacity are in bounds |
| BuilderRuns.MeaningsAreInOrder | clrbase/src/internal_calls_string.c:1350-1894 | the k-th edit of the model is the k-th command with the text its string has at that moment |
| SocketSelect.GetTime | clrbase/src/internal_calls_net.c:34-39 | the reading, exactly, with nanoseconds below 10^9 |
| SocketSelect.EndTime | clrbase/src/internal_calls_net.c:661-667 | start plus timeout exactly, normalised, without wrap-around |
| SocketSelect.TimeLeft | clrbase/src/internal_calls_net.c:672-680 | the difference exactly, microseconds in range |
| SocketSelect.WaitUntil | clrbase/src/internal_calls_net.c:659-704 | at each trial now plus time left is the deadline exactly, in a valid timeval, whatever the clock shows |
| SocketSelect.AttemptsInPlainTerms | clrbase/src/internal_calls_net.c:659-704 | the times and timeouts of the trials in microseconds, from the readings of the clock |
| SocketSelect.WaitForever | clrbase/src/internal_calls_net.c:706-713 | ends with the first trial that is not interrupted |
| SocketSelect.ExpiresOnlyAtDeadline | clrbase/src/internal_calls_net.c:694-703 | a timeout is simulated exactly at the first interrupted trial after which the clock is at or past the deadline |
| SocketSelect.FinishesAtFirstUninterrupted | clrbase/src/internal_calls_net.c:682-688 | the result is that of the first trial that did not fail with EINTR, if the deadline was not reached before |
| SocketSelect.WaitsThroughInterruptions | clrbase/src/internal_calls_net.c:669-704 | the wait is not over exactly while all trials failed with EINTR before the deadline |
| SocketSelect.WaitInPlainTerms | clrbase/src/internal_calls_net.c:659-713 | how the wait ends, in results, error codes and readings of the clock |
| SocketSelect.BuildSet | clrbase/src/internal_calls_net.c:607-622 | the set holds exactly the descriptors of the array, and the highest stays the highest |
| SocketSelect.DescriptorsInPlainTerms | clrbase/src/internal_calls_net.c:612-614 | the set of an array holds the handles cut to 32 bits, but for -1 |
| SocketSelect.UpdateHandles | clrbase/src/internal_calls_net.c:718-726 | each place keeps its handle or becomes invalid, as its descriptor is ready or not |
| SocketSelect.Select | clrbase/src/internal_calls_net.c:576-755 | first argument of select exceeds every descriptor and no more; only trials that fail with EINTR are repeated, and only these can end as a timeout, at or past the deadline; with a timeout each trial is given exactly the time left; arrays unchanged unless something fired, else rewritten for the roles they have, even if one array has several |
| SocketSelect.UpdateKeepsExactlyReady | clrbase/src/internal_calls_net.c:716-747 | exactly the ready handles are left if and only if no handle but -1 stands for no descriptor |
| SocketSelect.OneRole | clrbase/src/internal_calls_net.c:716-747 | an array given in one role only is rewritten for that role alone |
| SocketSelect.WideHandleIsOverlooked | clrbase/src/internal_calls_net.c:720-724 | a handle that stays although nothing is ready |
| ByteOrder.SignIsExtended | clrbase/src/internal_calls_net.c:79-85 | the cast of a half to 64 bits copies its sign bit upwards |
| ByteOrder.HostToNetworkOrderL | clrbase/src/internal_calls_net.c:67-93 | the value in network order, for either host |
| ByteOrder.NetworkToHostOrderL | clrbase/src/internal_calls_net.c:117-144 | the same conversion |
| ByteOrder.HalvesSwapped | clrbase/src/internal_calls_net.c:79-85 | sign extension does no harm: the joined swapped halves are the reversed value |
| ByteOrder.BytesAreReversed | clrbase/src/internal_calls_net.c:67-93 | all eight bytes change places on a little-endian host, none on a big-endian one |
| ByteOrder.NetworkOrderInPlainTerms | clrbase/src/internal_calls_net.c:67-93 | the same, byte by byte with shifts and masks |
| ByteOrder.OrderRoundTrip | clrbase/src/internal_calls_net.c:117-144 | converting twice gives the value back on either host |
| SectionTable.EntryRoundTrip | iljit-ecmasoft/src/iljit_ecmasoft_decoder.c:606-613 | an entry written in the order of section II.25.3 of ECMA-335, numbers lowest byte first, is read back field by field |
| SectionTable.EntriesInPlainTerms | iljit-ecmasoft/src/iljit_ecmasoft_decoder.c:592-613 | the k-th entry is read from the k-th 40 bytes of the table |
| SectionTable.Normalised | iljit-ecmasoft/src/iljit_ecmasoft_decoder.c:636-648 | virtual size at most real size, changed only to it, and so if it is missing; the address replaced exactly if both virtual fields are missing |
| SectionTable.Normalise | iljit-ecmasoft/src/iljit_ecmasoft_decoder.c:636-648 | the branches of the loader come to that |
| SectionTable.ChecksMeanNoWrap | iljit-ecmasoft/src/iljit_ecmasoft_decoder.c:653-660 | the tests pass exactly if neither range leaves the 32-bit space |
| SectionTable.Widen | iljit-ecmasoft/src/iljit_ecmasoft_decoder.c:690-697 | the running bounds stay the hull of the sections seen |
| SectionTable.BoundsTellWhetherAnyCounts | iljit-ecmasoft/src/iljit_ecmasoft_decoder.c:707-710 | the final test rejects exactly the tables in which no section takes up room |
| SectionTable.CountsInPlainTerms | iljit-ecmasoft/src/iljit_ecmasoft_decoder.c:680-690 | which sections are skipped and which count |
| SectionTable.NamesInPlainTerms | iljit-ecmasoft/src/iljit_ecmasoft_decoder.h:47-54 | the names that matter, spelled out |
| SectionTable.BaseInPlainTerms | iljit-ecmasoft/src/iljit_ecmasoft_decoder.c:664-669 | the base is the address of the last section with IL |
| SectionTable.AcceptableInPlainTerms | iljit-ecmasoft/src/iljit_ecmasoft_decoder.c:592-718 | when a table is accepted, in numbers |
| SectionTable.EndsEarlyInPlainTerms | iljit-ecmasoft/src/iljit_ecmasoft_decoder.c:596-599 | when reading it aborts |
| SectionTable.HullInPlainTerms | iljit-ecmasoft/src/iljit_ecmasoft_decoder.c:690-697 | what the bounds are |
| SectionTable.BinaryInfo.LoadEntry | iljit-ecmasoft/src/iljit_ecmasoft_decoder.c:596-660 | one entry read, kept and checked; a short read aborts |
| SectionTable.BinaryInfo.LoadSections | iljit-ecmasoft/src/iljit_ecmasoft_decoder.c:580-724 | accepted exactly if all entries are there and pass, some section takes up room and there is a base; then the bounds are the exact hull |
| SectionTable.ConvertVirtualAddress | libiljitsm/src/section_manager.c:119-137 | the file address by the first section that contains the address, or -1 |
| SectionTable.LoadedTableTranslatesSafely | libiljitsm/src/section_manager.c:119-137 | with an accepted table a translation is never mistaken for a miss and lies in its section's file range and between the loader's bounds |
| Reflection.StrCmp | clrbase/src/internal_calls_utilities.c:359-361 | the sign decides the order of the names as unsigned bytes |
| Reflection.ReflectionStringCmp | clrbase/src/internal_calls_utilities.c:351-384 | ignoring case, the sign decides the order of the lower-cased names as signed bytes; otherwise that of strcmp |
| Reflection.SameNameIsSameKey | clrbase/src/internal_calls_utilities.c:351-384 | zero means equal names, after folding if case is ignored |
| Reflection.SameNameInPlainTerms | clrbase/src/internal_calls_utilities.c:351-384 | which names are taken for the same, byte by byte |
| Reflection.KeyInPlainTerms | clrbase/src/internal_calls_utilities.c:359-376 | what is compared at a place: the folded signed byte, or the unsigned byte |
| Reflection.FoldingInPlainTerms | clrbase/src/internal_calls_utilities.c:365-371 | two bytes fold together exactly if they are equal or one letter in two cases |
| Reflection.IgnoresCaseInPlainTerms | clrbase/src/internal_calls_reflection.c:480-486 | case is ignored exactly if the flag asks for it and the name has fewer than 128 units |
| Reflection.ModesAgree | clrbase/src/internal_calls_utilities.c:351-384 | ignoring case orders names as strcmp orders the folded ones if and only if these do not differ first at a byte above 127; for names that need no folding these are the two modes |
| Reflection.ModesDisagreeOnHighBytes | clrbase/src/internal_calls_utilities.c:351-384 | two names that the modes order differently |
| Reflection.CountMatching | clrbase/src/internal_calls_reflection.c:524-539 | the first pass counts the matching fields |
| Reflection.StoreMatching | clrbase/src/internal_calls_reflection.c:546-571 | the second pass fills the array exactly |
| Reflection.MatchingIsExact | clrbase/src/internal_calls_reflection.c:546-571 | the fields found are those at the matching places, in order of declaration, none missed or repeated |
| Reflection.FieldsInOrder | clrbase/src/internal_calls_reflection.c:523-539 | the fields are taken in the order of the list |
| Reflection.GetFields | clrbase/src/internal_calls_reflection.c:509-604 | the matching fields, all fields without a name; the final assertion on the two counts holds |
| Reflection.GetField | clrbase/src/internal_calls_reflection.c:1026-1049 | the first of the fields that GetFields returns, or nothing |

## Left out

- Running out of memory.  A string is taken to have the capacity it is given, at most 0x7FFFFFF8 units.
- What the code does after it has left its storage or an assertion has failed; a run ends there.
- The garbage collector, `freeMemory`, tracing and debug printing.
- The managed side of StringBuilder: handing the string out (`HandOut`) stands for what sets the needs-copy flag; other edits (Remove, Insert of characters, the other Append forms) are not part of this model.
- `VolatileRead`/`VolatileWrite`, monitors, mutexes, events and thread start: outside the Interlocked protocol.
- Fairness: from every state all operations can be completed, but that a scheduler does so is not claimed.
- `Select`: descriptors outside 0 .. 1023 have no meaning in a descriptor set and are excluded; a failing `select` is taken to leave its sets alone; an endless series of interruptions is a list of trials of any length, at whose end the wait is not over.
- Clock readings and end times are unbounded integers; the 32-bit nanosecond fields are modelled.
- On Linux `strsep` is the C library's; the model is of the implementation the repository carries for Windows.
- The byte read of each separator is its low byte, as on a little-endian host; section entries are read with little-endian numbers.
- The section loader's status for a short read is the abort that il_read makes, so its own return of -1 for it cannot happen; the name of a section is kept with all its eight bytes.
- The other branches of the member lookups, and the null checks on their type arguments.
- String helpers whose code does not compute what their names say (InsertSpace, RemoveSpace, the ranged String.Replace of a unit, the array form of CharFill).
- All thin wrappers over the operating system and over libraries that are not part of this model.
