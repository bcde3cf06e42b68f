# m65tool datastruct: a verified model

This project models the `datastruct` C library of m65tool, the word-frequency program that uses it, and
the empty-directory computation of the maintenance script `superclean.py`, and proves properties of the
models with Dafny 4.11. `dafny verify dfyconfig.toml` checks everything.

| file | models |
|---|---|
| `Sequences.dfy` | what several components say about sequences |
| `Fnv.dfy` | the key hash of the map |
| `Table.dfy` | slots, probe runs, lookups, slot counting; `find_entry_pos` |
| `Doubling.dfy` | sizes that are doublings of an initial size |
| `HashMap.dfy` | the map as it is written |
| `RepairedMap.dfy` | the map as its header means it, after five repairs |
| `MapIter.dfy` | the value iterator |
| `Keys.dfy` | from hashes to keys; keys with which the map goes wrong |
| `Memtbl.dfy` | the memory table, over the repaired map; and its destroy loop as written |
| `Strings.dfy` | search, comparison, delimiter split |
| `Whitespace.dfy` | whitespace split, words, lines |
| `StrBuf.dfy` | the growing string buffer |
| `TopCounts.dfy` | the five-most / five-least selection, for any number of places |
| `WordFreq.dfy` | the word-frequency program, over the repaired map |
| `WrittenFreq.dfy` | its counting and report over the map as written |
| `SuperClean.dfy` | the empty directories of superclean |
| `Deletion.dfy` | their deletion |

## How the models read the source

* A parameter `allocOk`, `growOk` or `shrinkOk` says whether an allocation inside a call succeeds. What
  malloc and realloc answer is the parameter `answer` of the memory-table calls.
* The map's initial table size (32 in the source) is a parameter. Hashes are naturals below 2^32; zero
  marks an empty slot. `Fnv.dfy` computes the hashes on 32-bit vectors; `signed` says whether `char` is.
* `moves` says whether the growths of a string buffer move its block or extend it in place.
* In `HashMap.Map.Set` the local `entries` is read before the resize, as in the source, so after a growth
  the last two writes go to the old table, which nothing refers to any more.
* Characters are integers, whatever the signedness of `char`; whitespace is that of the "C" locale.

## Where the code does not do what its header says

The map as written is kept as it is in `HashMap.dfy`. Each departure below is a lemma, with the exact
condition under which the operation is right (`HashMap.Safe`, and `HashMap.StepExact` which proves it).

* A set that grows the table answers true and loses the new key (`HashMap.GrowthLosesTheKey`). On a new
  map the first growth loses its key whatever the keys are, and some of the others unless their homes in
  the doubled table are pairwise different (`HashMap.FirstGrowth`, and `HashMap.AfterFirstGrowth` for the run
  after it; an instance is the seventeenth of any
  seventeen one-character keys, `Keys.SeventeenthCharIsLost`).
* A resize overwrites entries that share a home slot; it loses none if and only if the stored hashes have
  different homes in the new table (`HashMap.RehashOccupancy`, `HashMap.RehashRepresents`).
* A growth leaves `entry_count` above the number of occupied slots, whether it succeeds or fails
  (`HashMap.CountStaysExactIff`, `HashMap.CountAndSizeChange`).
* A delete can hide other keys; it hides a key if and only if the freed slot lies between that key's home
  and its slot (`HashMap.DeleteKeepsKeyFound`, `HashMap.DeleteHidesTheOtherIff`; an instance is "A" and "a",
  `Keys.DeletingAHidesLowerA`).
* A key that hashes to zero can be set but not read back (`HashMap.ZeroHashIsNotStored`; an instance is
  "03SB[", `Keys.SomeStrIsNotStored`).
* Keys are never compared, so keys that share a hash are one key: a set of keys with nonzero hashes is right
  for every run if and only if no two of them share a hash (`Keys.AnswersAsKeysIff`; an instance is "L0Cc"
  and "pAad", `Keys.TwoStrsConflate`).
* A delete of an absent key answers false (src/datastruct/map.c:195), which the header
  (src/datastruct/map.h:100-105) reserves for a memory error; the reply is as documented if and only if the
  key was there (`HashMap.DeleteExact`).
* The destroy loop of the memory table deletes from the map it iterates over and can skip blocks
  (`Memtbl.DestroyReleasesAllIffAtHome`; an instance is any two blocks that share a home slot other than the
  last, `Memtbl.DestroySkipsABlock`). When it shrinks the map on the way it can lose more
  (`Memtbl.WhatIsDestroyed`).
* A failed resize of the map inside a moving realloc leaves the table naming a dead block. Over the repaired
  map the exact condition, told before the call, is `Memtbl.MoveSucceeds` (`Memtbl.MemTable.Realloc`; an
  instance is `Memtbl.DeadBlockAfterMove`). Over the map as written a move or an allocation that grows the
  table leaves the new block unrecorded (`HashMap.GrowthLosesTheKey`).
* Blocks whose addresses share a hash break the memory table's agreement with the heap, over the repaired map
  (`Memtbl.RecordAgrees`, `Memtbl.MemTable.Alloc`).
* The counter array's capacity test compares a number of words with a number of bytes; the last counter is
  inside the block if and only if `words_seen` is at most 128 (`WordFreq.CounterInBlockIff`).
* `words_seen` is not the number of distinct words when the map as written grows: a word that makes it grow and
  comes again is counted twice (`WrittenFreq.GrowthCountsTwice`). Every stream of some set of words is counted
  right if and only if none hashes to zero, no two share a hash, and there are at most half as many as slots in
  a new map (`WrittenFreq.AlwaysCountsRightIff`). An instance is any 128 words with different nonzero hashes, the
  seventeenth twice in a row: `words_seen` reaches 129 (`WrittenFreq.CounterOutsideBlock`).
* Over the repaired map the word-frequency report is a report on the hashes of the words; it is one on the words
  if and only if no two of them share a hash (`WordFreq.ReportOnWordsIff`; an instance is the stream "L0Cc pAad",
  `WordFreq.TwoWordsAreOne`).
* Appending a buffer to itself reads the released block when it has to grow and the growth moves it
  (`StrBuf.Buffer.ConcatenateBuffer`; an instance is `StrBuf.SelfAppendIsStale`).
* A string buffer of capacity zero is doubled for ever by an append that needs room, when reallocations to size
  zero succeed (`StrBuf.GrowingEndsIff`); when they answer null the append fails and the block is gone.
* With sign-extended characters the hash departs from FNV-1a at the first byte of 128 or more
  (`Fnv.FirstDeparture`, `Fnv.StrMatchesFnv1a`).
* The order in which superclean deletes directories fails if and only if a directory that was passed over
  lies below one to delete (`Deletion.DeletableIff`; an instance is an otherwise empty ".git" with a directory
  in it, `Deletion.SomethingHidden`).
* With a root that ends in a slash, superclean can return the root, or miss a directory named like the root; the
  list is right if and only if `SuperClean.RootIsFine` (`SuperClean.GetEmptyDirectories`; instances are
  `Deletion.SlashRootIsReturned` and `Deletion.SlashRootMissesADirectory`).

`RepairedMap.dfy` states the five repairs (R1 to R5) at its head; `Memtbl.MemTable.Destroy` takes a
snapshot before freeing (R6); `WordFreq.dfy` addresses counters by index and tests capacity in elements.

## Model

| member | source | states |
|---|---|---|
| Fnv.HashStr | src/datastruct/map.c:54-70 | the loop computes the fold of the step over the str tag and the key's bytes |
| Fnv.HashPtr | src/datastruct/map.c:84-103 | the loop computes the same fold over the pointer tag and the address's eight bytes, lowest first |
| Fnv.StrOneMore | src/datastruct/map.c:62-68 | one more character of a key: its value, sign-extended or not, is xored in and the result multiplied by the prime; the empty key has the state after the tag |
| Fnv.StrOneByteApart | src/datastruct/map.c:54-70 | changing one byte of a str of any length, at any place, changes its hash |
| Fnv.StrMatchesFnv1a | src/datastruct/map.c:45-51 | the hash of a str is FNV-1a of a zero byte and its bytes when char is unsigned or all are below 128; after such a str, one more byte keeps it so iff char is unsigned or that byte is below 128 |
| Fnv.OneHighByteShows | src/datastruct/map.c:63-64 | a str with exactly one byte of 128 or more has different hashes with signed and unsigned characters |
| Fnv.AddressBytesAre | src/datastruct/map.c:92-96 | the bytes hashed are all eight of the address, each given by its shift, the lowest first |
| Fnv.AddressBytesInjective | src/datastruct/map.c:94-96 | different addresses have different bytes |
| Fnv.PtrOneByteApart | src/datastruct/map.c:84-103 | any two addresses that differ in exactly one byte have different hashes |
| Fnv.PtrHashIs | src/datastruct/map.c:84-103 | the hash of any address is the fold over its eight bytes from the state after the tag, and FNV-1a of a one byte and these when char is unsigned or all are below 128 |
| Fnv.HashOfHighBytes | src/datastruct/map.c:63-64 | the hash of the two bytes of a UTF-8 character, with signed and with unsigned characters |
| Fnv.StepMultiplies | src/datastruct/map.c:59-60 | the shifts and additions multiply by 0x01000193 modulo 2^32 |
| Fnv.StepBijective | src/datastruct/map.c:64-67 | for a fixed character a step is a bijection of the states; multiplying by 0x359c449b and xoring undoes it |
| Fnv.OneByteApart | src/datastruct/map.c:62-68 | keys of equal length that differ in exactly one byte never share a hash |
| Fnv.StrNeverMeetsPtr | src/datastruct/map.c:48-49 | a str never shares its hash with a pointer of the same bytes |
| Fnv.MatchesFnv1a | src/datastruct/map.c:45-46 | the hash is FNV-1a (section 2 of draft-eastlake-fnv) of the tagged key when no character is sign-extended |
| Fnv.FirstDeparture | src/datastruct/map.c:63-64 | after bytes below 128, the next byte keeps the hash equal to FNV-1a iff char is unsigned or the byte is below 128 |
| Fnv.ZeroHash | src/datastruct/map.c:62-69 | a key hashes to zero iff its last byte equals the state before it |
| Fnv.SomeKeyHashesToZero | src/datastruct/map.c:54-70 | a concrete five-character key hashes to the empty marker |
| Fnv.SomeKeysShareAHash | src/datastruct/map.c:54-70 | two concrete four-character keys share a hash |
| Fnv.OneCharKeys | src/datastruct/map.c:54-70 | one-character strs have nonzero hashes, all different |
| Fnv.SmallAddresses | src/datastruct/map.c:84-103 | addresses below 256 have nonzero hashes, all different |
| Table.FindEntryPos | src/datastruct/map.c:147-162 | answers the first slot, cyclically from home, that holds the hash or is empty; fails only on a full table without the hash |
| Table.ProbePath | src/datastruct/map.c:150-159 | the slots a probe looks at: from the remainder of the hash up, one at a time, around the end, past slots that hold other hashes |
| Table.ProbeReaches | src/datastruct/map.c:152-159 | with an empty slot anywhere, a probe ends, by cyclic distance |
| Table.FoundIffReachable | src/datastruct/map.c:147-162 | with distinct hashes an entry is found iff its probe run has no hole |
| Table.PutRepresents | src/datastruct/map.c:177-178 | writing a nonzero hash where its probe ends changes the represented map at that hash alone and keeps all runs unbroken |
| HashMap.RehashSlot | src/datastruct/map.c:125-129 | after a resize each slot holds the highest-indexed old entry of its residue class, or nothing |
| HashMap.RehashOccupancy | src/datastruct/map.c:125-129 | a resize loses no entry iff the stored hashes are pairwise distinct modulo the new size |
| HashMap.SurvivorsAreFound | src/datastruct/map.c:125-133 | every survivor of a resize sits in its home slot and is found there with its value |
| HashMap.RehashRepresents | src/datastruct/map.c:116-135 | lookups after a resize agree with the map iff the stored hashes spread apart |
| HashMap.StepKeepsInv | src/datastruct/map.c:164-209 | any operation, zero hashes and failed resizes included, keeps occupied slots at most the count and at most half the table, and the size a doubling; the count never goes below zero |
| HashMap.CountAndSizeChange | src/datastruct/map.c:164-209 | from any reachable state, the exact new count, table size and reply of every operation: the count rises by one iff a set of a valid handle finds no entry, a failed growth included, and falls by one iff a delete finds one |
| HashMap.Run | src/datastruct/map.c:116-209 | every reachable state keeps that invariant, so every probe ends and the assert is never reached |
| Doubling.DoublingIsPowerOfTwo | src/datastruct/map.c:118 | table sizes are the initial size times a power of two |
| HashMap.DeleteKeepsKeyFound | src/datastruct/map.c:191-199 | after a delete without shrink another key is still found iff the freed slot is not between its home and its slot |
| HashMap.PunchRepresents | src/datastruct/map.c:197-198 | such a delete removes exactly its key iff no other entry's probe passes through the freed slot |
| HashMap.GrowthLosesTheKey | src/datastruct/map.c:166-178 | a set that grows the table answers true and its key is then not found |
| HashMap.SetExact | src/datastruct/map.c:164-181 | a set does what the header says iff it is safe: nonzero hash and no successful growth |
| HashMap.DeleteExact | src/datastruct/map.c:191-209 | a delete does what the header says to the table iff it is safe: no probe through the freed slot, or hashes spread apart when it shrinks; and its reply is as documented iff the key was there |
| HashMap.StepExact | src/datastruct/map.h:60-106 | both directions for every operation: agreement with the partial map afterwards iff the operation was safe, and for a delete a reply as documented iff the key was there |
| HashMap.CountStaysExactIff | src/datastruct/map.c:168-207 | the count stays the number of occupied slots iff a set does not grow the table or use hash zero and a shrinking delete loses no entry |
| HashMap.SafeRunAgrees | src/datastruct/map.c:164-209 | over any run of safe operations every get answers the handle last set and not deleted since |
| HashMap.GrowthFreeRunAgrees | src/datastruct/map.c:147-189 | from the empty table, sets and gets on nonzero hashes without growth agree with a partial map and keep all runs unbroken |
| HashMap.RunKeepsBalance | src/datastruct/map.c:170-207 | with resizes succeeding the count stays between a quarter and a half of the table, and the table within the initial size or four times the count |
| HashMap.NoThrashing | src/datastruct/map.c:201-205 | a growth is never immediately followed by a shrink, nor the reverse |
| HashMap.FirstGrowth | src/datastruct/map.c:164-181 | any keys that fill a new map to half load, and one more, are all answered true; the count is then one above half load in a table twice the size, the last key is not found, and the others agree with the partial map iff their homes in the doubled table are pairwise different |
| HashMap.AfterFirstGrowth | src/datastruct/map.c:164-189 | the run after that: new keys that fit the half load of the doubled table do not make it grow again, and are all answered true, counted and found |
| HashMap.FirstTwoSlots | src/datastruct/map.c:150-159 | on a new map the first key goes to the slot of its remainder, and a second one with the same remainder to the next slot, around the end |
| HashMap.DeleteHidesTheOtherIff | src/datastruct/map.c:191-209 | on a new map: set two keys, delete the first, and the second is still found iff the two have different home slots |
| HashMap.ZeroHashIsNotStored | src/datastruct/map.c:154 | a set under hash zero answers true and a get then answers the invalid handle |
| HashMap.Map.constructor | src/datastruct/map.c:17-29 | a new map is the empty table of the initial size |
| HashMap.Map.ResizeEntriesTable | src/datastruct/map.c:116-135 | the loop builds the rehashed table in a new block, or changes nothing |
| HashMap.Map.Set | src/datastruct/map.c:164-181 | new state and reply of a set, the stale write included; count, size and reply written out |
| HashMap.Map.Get | src/datastruct/map.c:183-189 | answers the lookup |
| HashMap.Map.Delete | src/datastruct/map.c:191-209 | new state and reply of a delete; count, size and reply written out |
| RepairedMap.Map.constructor | src/datastruct/map.c:17-29 | a new map is empty |
| RepairedMap.Map.ResizeEntriesTable | src/datastruct/map.c:116-135 | with probing, a resize conserves the entries and re-establishes the probe runs |
| RepairedMap.Map.Locate | src/datastruct/map.c:147-162 | the slot found holds the key's entry, or is empty when the key is absent |
| RepairedMap.Map.Claim | src/datastruct/map.c:167-176 | counts a new entry and grows past half load, or restores the count |
| RepairedMap.Map.Write | src/datastruct/map.c:177-178 | the entry goes where its probe ends and the map is updated at that key |
| RepairedMap.Map.Set | src/datastruct/map.h:60-77 | sets exactly the key, fails exactly on an invalid value, hash zero or a growth that cannot be had, changing nothing then; doubles exactly past half load |
| RepairedMap.Map.Get | src/datastruct/map.h:79-94 | answers the handle stored under the hash, or the invalid handle |
| RepairedMap.Map.CloseRun | src/datastruct/map.c:197-199 | shifting back removes exactly one entry and leaves every other one found |
| RepairedMap.Map.Delete | src/datastruct/map.h:96-114 | deletes exactly the key, halves exactly below quarter load, and the reply says whether the key was there and a needed shrink succeeded |
| RepairedMap.OccupancyIsSize | src/datastruct/map.c:169 | the number of occupied slots is the number of keys |
| RepairedMap.Perform | src/datastruct/map.c:164-209 | over every run of sets, gets and deletes, any hashes, with resizes succeeding or failing, every get answers as the partial map does, and every reply, content and size is told moment by moment |
| RepairedMap.FollowsWithMemory | src/datastruct/map.h:60-106 | at every moment of such a run, with memory: a set sets and answers true unless its handle is invalid or its hash zero, a delete deletes and answers whether the key was there |
| RepairedMap.NoThrashing | src/datastruct/map.c:201-205 | in no run is a growth followed at once by a shrink, or a shrink by a growth |
| RepairedMap.RunKeepsBalance | src/datastruct/map.c:170-207 | with resizes succeeding, at every moment of every run at most half of the slots are in use, and above the initial size at least a quarter |
| RepairedMap.PerformOnNew | src/datastruct/map.c:17-209 | both, for every run on a new map |
| MapIter.FirstValueIter | src/datastruct/map.c:241-250 | the first slot that carries a value, or done when there is none |
| MapIter.NextValueIter | src/datastruct/map.c:252-264 | the next such slot, or done |
| MapIter.VisitAll | src/datastruct/map.c:266-268 | the loop from first to done visits exactly the slots that carry a value |
| MapIter.VisitsOccupiedOnce | src/datastruct/map.c:241-268 | when empty slots carry the null handle, those are the occupied slots, each once, in increasing order |
| MapIter.VisitsContents | src/datastruct/map.c:241-268 | the values yielded are the bag stored: each key is met once, with its value |
| MapIter.StepKeepsTidy | src/datastruct/map.c:164-209 | an operation leaves a value in an empty slot iff it is a set under hash zero without growth |
| MapIter.RunKeepsTidy | src/datastruct/map.c:164-209 | runs on nonzero hashes keep empty slots at the null handle |
| Keys.RunLifts | src/datastruct/map.c:211-239 | a run right over hashes is right over keys when no two keys in use share a hash |
| Keys.AnswersAsKeysIff | src/datastruct/map.c:147-162 | keys with nonzero hashes are answered as by a map over keys, in every run on a new map that is safe over hashes, iff no two of them share a hash |
| Keys.SharedHashConflates | src/datastruct/map.c:153 | for any two keys that share a nonzero hash, a safe run in which the first is answered with the second's value |
| Keys.TwoStrsConflate | src/datastruct/map.c:153 | two concrete strs for which a new map answers one with the other's value |
| Keys.SomeStrIsNotStored | src/datastruct/map.c:154 | a concrete str that a new map answers as set and does not find |
| Keys.DeletingAHidesLowerA | src/datastruct/map.c:191-199 | a concrete run on a new map: deleting one str hides another |
| Keys.SeventeenthCharIsLost | src/datastruct/map.c:164-181 | any seventeen one-character strs set in a new map: the last is not found, nor all of the others when two of them are "!" and "a" |
| Memtbl.RecordAgrees | src/datastruct/memtbl.c:41 | recording a block keeps the table's keys equal to the owned addresses iff its hash is nonzero and unshared |
| Memtbl.MoveAgrees | src/datastruct/memtbl.c:60-66 | what a moving realloc's two map calls do to the agreement: kept iff the new hash is nonzero and unshared; lost when the old entry stays |
| Memtbl.MoveSucceedsIff | src/datastruct/memtbl.c:61-62 | when the two map calls of a move succeed, and the size of the map's table then, with the load limits written out |
| Memtbl.MemTable.constructor | src/datastruct/memtbl.c:6-16 | a new table owns nothing |
| Memtbl.MemTable.Alloc | src/datastruct/memtbl.c:35-47 | a block is recorded and owned iff its hash is nonzero and a needed growth can be had, else it is released again and nothing changes; the table stays in agreement iff a recorded block's hash is nonzero and unshared |
| Memtbl.MemTable.Realloc | src/datastruct/memtbl.c:49-68 | a moved block replaces the old key; exactly when the move succeeds and exactly when the table stays in agreement with the heap, in terms of the state before the call |
| Memtbl.MemTable.MoveEntry | src/datastruct/memtbl.c:61-62 | the map's part of a move succeeds exactly when its resizes do, and leaves exactly these entries either way |
| Memtbl.DeadBlockAfterMove | src/datastruct/memtbl.c:60-66 | sixteen blocks, then a move without memory for the map: the table names a dead block |
| Memtbl.FirstPointersUsable | src/datastruct/map.c:84-103 | the hashes of the first seventeen addresses are nonzero and all different |
| Memtbl.MemTable.Free | src/datastruct/memtbl.c:70-78 | the block is forgotten and released once |
| Memtbl.MemTable.P | src/datastruct/memtbl.c:80-88 | a live block answers its address, and any other null unless its hash is that of a live block |
| Memtbl.MemTable.Destroy | src/datastruct/memtbl.c:23-33 | iterating over a snapshot releases each owned block exactly once and nothing else |
| Memtbl.PerformCalls | src/datastruct/memtbl.c:35-78 | after every run of calls, whatever the map's resizes do in allocations and frees, the table's keys are exactly those of the blocks allocated and not released, and heap, history and table are those told call by call |
| Memtbl.PerformAndDestroy | src/datastruct/memtbl.c:23-88 | destroying the table after any such run appends each owned block once to the history of released blocks, and nothing else, and takes exactly those off the heap |
| Memtbl.DestroyAsWritten | src/datastruct/memtbl.c:26-30 | the loop as written on any table, round by round; the table keeps its size iff it cannot shrink or what the sweep frees leaves it at a quarter load, and then the loop computes the sweep |
| Memtbl.WhatIsDestroyed | src/datastruct/memtbl.c:26-30 | what that comes to, with or without shrinks: only recorded blocks are released, none twice; the first value that can be found is released; nothing that can be found is left after the last slot freed; every recorded block was released, is still in the table, or was overwritten by a shrink |
| Memtbl.FreeUnder | src/datastruct/memtbl.c:28 | freeing the value under the iterator releases its block, empties its slot, and may shrink the table |
| Memtbl.FreeKeeps | src/datastruct/map.c:191-209 | a free under the iterator, shrinking or not, leaves only recorded and unreleased entries |
| Memtbl.NextLive | src/datastruct/map.c:252-264 | the next slot whose value is still found in the table |
| Memtbl.SweepStep | src/datastruct/memtbl.c:27-29 | a slot is freed iff no hole has opened in its probe run |
| Memtbl.DestroyReleasesAllIffAtHome | src/datastruct/memtbl.c:23-33 | when no delete shrinks the table, with or without holes, it releases all blocks iff every entry outside slot 0 sits in its home slot and no hole hides the one in slot 0, and never one twice |
| Memtbl.DestroySkipsABlock | src/datastruct/memtbl.c:26-30 | for any two blocks that share a home slot other than the last, the loop releases the first only |
| Strings.StrFind | src/datastruct/str.c:86-102 | the leftmost occurrence, or -1 when there is none or an argument is invalid |
| Strings.StrCompare | src/datastruct/str.c:104-124 | lexicographic comparison, a proper prefix first, an invalid str before all |
| Strings.FirstDifferenceDecides | src/datastruct/str.c:113-123 | the smaller of the first different characters comes first; without one, the shorter text |
| Strings.CompareIsTotalOrder | src/datastruct/str.h:189-205 | comparison is a total order and answers 0 exactly on equal strs |
| Strings.StrSplitPop | src/datastruct/str.c:126-142 | the part before the leftmost delimiter and the rest after it, or the whole and an invalid rest |
| Strings.SplitAll | src/datastruct/str.h:214-222 | with a nonempty delimiter the recommended loop terminates and yields all parts |
| Strings.PopMakesProgress | src/datastruct/str.c:128-140 | a pop hands back the same string iff the delimiter is empty |
| Strings.JoinSplit | src/datastruct/str.c:126-142 | joining the parts with the delimiter gives back the string |
| Strings.SplitJoin | src/datastruct/str.c:126-142 | splitting a joined list gives back the list iff in each non-last part the delimiter first occurs at the part's end and the last part does not contain it |
| Whitespace.SplitWhitespacePop | src/datastruct/str.c:144-173 | the loops find the first word and the start of the next |
| Whitespace.SeparatorIff | src/datastruct/str.c:149-164 | exactly the characters 9 to 13 and 32 separate words: between two words such a character ends the first, and any other makes one word of the two |
| Whitespace.PopWords | src/datastruct/str.h:249-264 | a pop takes the first word off the words of the text, and the rest is shorter; without a word the part is empty and the rest invalid |
| Whitespace.SplitAllWhitespace | src/datastruct/str.h:249-264 | draining terminates and yields the words, or one empty part when there are none |
| Whitespace.WordsAreMaximalRuns | src/datastruct/str.c:149-167 | the words are exactly the maximal non-space runs, in order |
| Whitespace.JoinedWords | src/datastruct/str.h:255-257 | words joined with any whitespace, with leading and trailing whitespace, have the same words |
| Whitespace.LinesHaveTheSameWords | src/m65tool/m65tool.c:141-158 | splitting into lines first does not change the words of a stream |
| StrBuf.Buffer.constructor | src/datastruct/str.c:175-188 | a new buffer is empty, with the capacity asked for |
| StrBuf.Buffer.Reset | src/datastruct/str.c:211-215 | empties the contents and keeps the block |
| StrBuf.Buffer.Grow | src/datastruct/str.c:217-222 | doubles the capacity and keeps the bytes, or loses the block |
| StrBuf.GrowingEndsIff | src/datastruct/str.c:229-231 | the growing loop ends iff the bytes fit or the capacity is not zero (or a reallocation fails) |
| StrBuf.Buffer.Concatenate | src/datastruct/str.c:224-236 | appends exactly the bytes, fails iff invalid or a needed growth fails, and reads released memory iff it appends its own block and a growth moves it |
| StrBuf.Buffer.ConcatenateText | src/datastruct/str.c:238-250 | appending a character, C string or str |
| StrBuf.Buffer.ConcatenateFormatted | src/datastruct/str.c:260-280 | appending formatted text needs one byte more but counts only the text |
| StrBuf.Buffer.ConcatenateBuffer | src/datastruct/str.c:252-258 | appending a buffer to itself is right iff there is room beforehand or the growth extends the block in place |
| StrBuf.SelfAppendIsStale | src/datastruct/str.c:252-258 | a full buffer of two characters appended to itself reads released memory |
| StrBuf.Buffer.Duplicate | src/datastruct/str.c:282-292 | same contents and capacity, without a growth |
| StrBuf.Perform | src/datastruct/str.c:211-280 | over any run: contents are what was appended since the last reset, the capacity is a doubling and at most twice the longest contents once grown, and growths moved fewer bytes than the final capacity |
| StrBuf.ReplaySnoc | src/datastruct/str.c:211-236 | what one more operation does to the contents of a run: an append adds its text at the end, a reset empties them |
| TopCounts.InsertCount | src/m65tool/m65tool.c:164-185 | the inner loop carries a count along the places |
| TopCounts.InsertSelects | src/m65tool/m65tool.c:163-186 | one more count keeps the list the ranked selection of the counts seen |
| TopCounts.SelectFrequencies | src/m65tool/m65tool.c:160-186 | the largest and the smallest distinct counts, strictly ordered and padded with zeros, for any number of places |
| TopCounts.SelectionMeans | src/m65tool/m65tool.c:160-186 | what a selection is, written out for both lists: decreasing or increasing, and no count left out that belongs between |
| TopCounts.SelectionIsUnique | src/m65tool/m65tool.c:160-186 | no other list of that length is such a selection |
| TopCounts.CountMatches | src/m65tool/m65tool.c:188-203 | each match count is the number of values equal to the place's count |
| TopCounts.MatchTotals | src/m65tool/m65tool.c:188-203 | the match counts sum to the number of words iff there are at most as many distinct counts as places |
| WordFreq.CounterInBlockIff | src/m65tool/m65tool.c:91-106 | as written, the counter numbered by words_seen lies inside its block iff words_seen is at most 128 |
| WordFreq.Counter.CountWord | src/m65tool/m65tool.c:83-107 | a word seen before has its own counter incremented, a new word gets a counter of one; the program stops iff the word hashes to zero |
| WordFreq.Counter.AddCounter | src/m65tool/m65tool.c:91-106 | a new counter of one at the end, doubling the array when it is full |
| WordFreq.Counter.ProcessLine | src/m65tool/m65tool.c:78-110 | counts exactly the words of the line, or stops iff one hashes to zero |
| WordFreq.Counter.ReadChar | src/m65tool/m65tool.c:146-155 | a newline counts the line and clears the buffer, any other character extends it |
| WordFreq.Counter.CountStream | src/m65tool/m65tool.c:140-158 | reading line by line counts exactly the words of the whole stream, or stops iff one hashes to zero |
| WordFreq.TallyMeans | src/m65tool/m65tool.c:75-87 | the counters equal to f are as many as the tokens that occur f times, and there is a counter per distinct token |
| WordFreq.IteratedCounters | src/m65tool/m65tool.c:190-193 | the iterated map values lead to every counter exactly once |
| WordFreq.IteratedMatches | src/m65tool/m65tool.c:190-203 | on any table, the iterated counters that equal a number are as many as the slots that carry a value with such a counter |
| WordFreq.Counter.MakeReport | src/m65tool/m65tool.c:160-203 | selections and match counts in terms of numbers of occurrences of the hashes counted |
| WordFreq.ReportOnWordsIff | src/m65tool/m65tool.c:83-87 | a right report on the hashes of words is a right report on the words iff no two of them share a hash |
| WordFreq.ReportMeans | src/m65tool/m65tool.c:188-212 | what a right report says, written out: how many different words, their largest and smallest numbers of occurrences in order, and how many words occur that often |
| WordFreq.WordFrequencies | src/m65tool/m65tool.c:112-215 | the whole program over the repaired map on any stream: it stops iff a word hashes to zero, and its report (distinct words, ranked numbers of occurrences, words per number, when the matches cover all) is right iff no two words share a hash |
| WordFreq.TwoWordsAreOne | src/m65tool/m65tool.c:83-87 | on the stream "L0Cc pAad" one word is seen and the report is wrong |
| WrittenFreq.CountWord | src/m65tool/m65tool.c:83-107 | over the map as written: the counter found is incremented, or a new one is made and the map told |
| WrittenFreq.GrowthCountsTwice | src/m65tool/m65tool.c:83-91 | a word that makes the map grow and comes again at once adds two to words_seen |
| WrittenFreq.NewWordsAreCounted | src/m65tool/m65tool.c:83-91 | words that have not come before each add one, whatever the map has lost |
| WrittenFreq.CountAllIsRight | src/m65tool/m65tool.c:78-110 | while distinct words are at most half the table, every counter is its word's number of occurrences |
| WrittenFreq.OneTooMany | src/m65tool/m65tool.c:83-91 | any words that fill a new map to half load, one more twice in a row, then any others: words_seen is one too high |
| WrittenFreq.CounterOutsideBlock | src/m65tool/m65tool.c:91-106 | with 128 such words the last counter lies outside its block |
| WrittenFreq.AlwaysCountsRightIff | src/m65tool/m65tool.c:78-110 | every stream of a set of words is counted right iff no hash is zero or shared and the words are at most half the slots of a new map |
| WrittenFreq.ReportAsWritten | src/m65tool/m65tool.c:160-203 | on every stream the report is the selection over the counters and the match counts over the values left in the table; with at most 16 distinct words, no hash zero or shared, the program as written reports right |
| SuperClean.SplitsIntoNames | scripts/superclean.py:130-131 | the text after the root splits into an empty part and the names of the path |
| SuperClean.JoinPathIsKey | scripts/superclean.py:132-136 | each partial is the key of an ancestor |
| SuperClean.KeyInjective | scripts/superclean.py:134 | different directories have different keys |
| SuperClean.CountAlong | scripts/superclean.py:131-137 | the prefix loop adds once at each key that the split text has as a partial |
| SuperClean.TailParts | scripts/superclean.py:130-137 | the keys the first loop counts at, for roots with and without a slash at the end |
| SuperClean.ListedParts | scripts/superclean.py:141-152 | the keys the second loop counts at, likewise |
| SuperClean.CountFiles | scripts/superclean.py:126-137 | a key's count is the number of files the first loop counts there, ".git" insides passed over |
| SuperClean.DiscountListed | scripts/superclean.py:139-152 | less the number of listed files there whose directory exists |
| SuperClean.CountIsZeroIff | scripts/superclean.py:154 | a count is zero iff every file at or below the directory is listed, for roots without a slash at the end, and below a root with one that has no listed file |
| SuperClean.CountIsZero | scripts/superclean.py:154 | for any root, a count is zero iff the unlisted files counted there are as many as the listed files that are not below |
| SuperClean.ReturnedIsRemovable | scripts/superclean.py:154 | when the root is fine, what is returned is what is removable |
| SuperClean.SomeReturnIsWrong | scripts/superclean.py:154 | when it is not, some directory is wrongly returned or missed |
| SuperClean.GetEmptyDirectories | scripts/superclean.py:100-157 | the directories returned are exactly the walked ones with every file at or below them listed, in reverse sorted order, iff the root is fine; and which are returned when it is not |
| SuperClean.BelowSortsAfter | scripts/superclean.py:103-104 | a nested directory sorts after its ancestors |
| SuperClean.ZeroKeys | scripts/superclean.py:154-155 | the keys with count zero, in reverse sorted order without repetition |
| SuperClean.AncestorsKept | scripts/superclean.py:128-129 | the ancestors of a directory that is not passed over are not passed over |
| SuperClean.SkipsIff | scripts/superclean.py:128-129 | a directory is passed over iff some name on its absolute path other than the last is ".git" |
| Deletion.NextIsEmptyIff | scripts/superclean.py:207-211 | at its turn a directory is empty iff all its own files are listed and all its child directories are to be deleted |
| Deletion.DeletableIff | scripts/superclean.py:207-211 | the removable directories can all be deleted iff no passed-over directory lies below one of them |
| Deletion.WrongKeyFails | scripts/superclean.py:207-211 | a list with a directory above an unlisted file cannot be deleted |
| Deletion.RemoveFiles | scripts/superclean.py:201-205 | removes exactly the listed files |
| Deletion.RemoveDirectories | scripts/superclean.py:207-211 | for any list in reverse sorted order, every rmdir finds an empty directory iff each directory in it can go at its turn; otherwise the directories before the first that cannot go are gone and all others are there |
| Deletion.DeleteAll | scripts/superclean.py:201-211 | files and then directories: success iff the list can be deleted, and for the removable directories iff nothing is hidden; the directories left are the others, after a failure those from the failing one on |
| Deletion.SomethingHidden | scripts/superclean.py:128-129 | a concrete tree in which a directory to delete holds one that was passed over |
| Deletion.SlashRootIsReturned | scripts/superclean.py:130-131 | root "/r/" with an unlisted file in "/r/a" only: the root is returned although nothing is hidden |
| Deletion.SlashRootMissesADirectory | scripts/superclean.py:141-146 | root "/r/" with a listed file of its own: its empty directory "r" is not returned |
| Deletion.CleanUp | scripts/superclean.py:189-211 | computing and deleting together, for roots with and without a slash at the end: success iff the returned list can be deleted; without listed files in such a root, iff the root is fine and nothing is hidden |

## Left out

- HashMap.Map.Set: a stale write past the end of the freed table is dropped rather than given a meaning.
- HashMap: `unsigned int` overflow of the table size and the `double` in its computation.
- RepairedMap.Map: the repairs are this model's; the repository does not contain them.
- Memtbl.PerformCalls: runs in which moves get the map's resizes they need and no two owned blocks share a hash; what happens otherwise is told call by call (`Memtbl.MemTable.Alloc`, `Memtbl.MemTable.Realloc`).
- Memtbl.MemTable.Realloc: the map entry keeps the old size when the block grows in place, as in the source; sizes are not tracked further.
- Memtbl.DestroyReleasesAllIffAtHome: runs in which no delete shrinks the table; on others, what `Memtbl.WhatIsDestroyed` says, without a condition for all blocks being released.
- Memtbl: the blocks of the map and of the table itself, nested tables, and the SIGINT guard.
- Strings: strs are contents; that a part shares memory with the string it came from is not modelled, nor are results of `str_find` above `INT_MAX`.
- StrBuf.Buffer.Duplicate: failed allocations in creating and duplicating a buffer.
- StrBuf.Buffer: appends that need room in a buffer of capacity zero with reallocations succeeding, which never end (`StrBuf.GrowingEndsIff` says when), are not calls of these methods.
- Strings: `str_cstr`, `str_write_cstr_to_buf` and the duplicate functions for strs, which are single copies.
- WordFreq: file reading, printing, exits, and `getopt_test`; the stale pointers after a counter array moves, replaced by indices.
- SuperClean: git, submodules, symbolic links; listed files are files of walked directories, without repetition.
- SuperClean.IsRoot: the root is an absolute path as `os.path.abspath` gives it, or that with a slash added; other spellings (relative, with dots or doubled slashes) make the listed names not start with it.
- WrittenFreq.ReportAsWritten: counters outside their block are kept like any others, where the program would write to memory that is not its own; memory for growths is available.
- SuperClean.ZeroKeys: Python's sort is modelled by insertion; only its result matters.
- scripts/build.py, scripts/makemake.py, scripts/newmod.py and the build files: process launching and templates.
